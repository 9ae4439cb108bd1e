// kernel/src/files/minix/node.c: reading and writing a file by walking its zone tree.
module Minix {
  import opened Basics
  import opened MinixSpec
  import opened MinixSpace

  // SUCCESS_EXIT ends the walk early; the only failure here is a full file system.
  datatype Error = Success | SuccessExit | NoSpace

  // What the request in progress is to achieve, and with which space. `moved` is the predicate Transferred below, as a
  // value, and `walk` where the cursor is.
  datatype Goal = Goal(was: Tree, write: bool, offset: nat, length: nat, bytes: seq<byte>, space: Space,
                       moved: (Tree, nat, seq<byte>, seq<byte>) -> bool, walk: Walk)

  // The cursor before and after a place, and before entry `i` of a scan.
  datatype Walk = Walk(before: (Loc, nat, nat) -> bool, past: (Loc, nat, nat) -> bool,
                       between: (Ctx, nat, nat, nat) -> bool)

  // After `done` bytes: `t` is the tree, `output` what has been read, `input` what is still to be written.
  ghost predicate Transferred(g: Goal, t: Tree, done: nat, input: seq<byte>, output: seq<byte>) {
    && done <= g.length && g.offset + g.length <= LIMIT && (g.write ==> |g.bytes| == g.length)
    && (forall pos: nat {:trigger ByteAt(t, pos)} :: pos < LIMIT ==>
          ByteAt(t, pos) == if g.write && g.offset <= pos < g.offset + done then g.bytes[pos - g.offset]
              else ByteAt(g.was, pos))
    && (g.write ==> input == g.bytes[done..])
    && (!g.write ==> t == g.was && |output| == done && forall i: nat :: i < done ==>
        output[i] == ByteAt(g.was, g.offset + i))
  }

  ghost predicate MovedAt(g: Goal, t: Tree, done: nat, input: seq<byte>, output: seq<byte>) {
    g.moved(t, done, input, output) == Transferred(g, t, done, input, output)
  }

  ghost predicate Moved(g: Goal, t: Tree, done: nat, input: seq<byte>, output: seq<byte>) {
    && done <= g.length && g.offset + g.length <= LIMIT && g.moved(t, done, input, output)
    && forall u, d, i, o {:trigger MovedAt(g, u, d, i, o)} :: MovedAt(g, u, d, i, o)
  }

  ghost function NewGoal(was: Tree, write: bool, offset: nat, length: nat, bytes: seq<byte>, zones: nat): (g: Goal)
    ensures g == Goal(was, write, offset, length, bytes, g.space, g.moved, g.walk) && WalkOk(g)
    ensures SpaceOk(g.space) && g.space.job == Job(was, offset, length, zones)
    ensures forall u, d, i, o {:trigger MovedAt(g, u, d, i, o)} :: MovedAt(g, u, d, i, o)
  {
    var g := Goal(was, write, offset, length, bytes, SpaceOf(Job(was, offset, length, zones)),
        (u, d: nat, i, o) => false, WalkFor(offset, length));
    g.(moved := (u, d: nat, i, o) => Transferred(g, u, d, i, o))
  }

  ghost function WalkFor(offset: nat, length: nat): (w: Walk)
    ensures forall l, c, i, p, d {:trigger WalkDef(w, offset, length, l, c, i, p, d)} ::
              WalkDef(w, offset, length, l, c, i, p, d)
  {
    Walk((l, p: nat, d: nat) => IsLoc(l) && Cursor(offset, length, Start(l), p, d),
         (l, p: nat, d: nat) => IsLoc(l) && PastEntry(offset, length, l, p, d),
         (c, i: nat, p: nat, d: nat) => Cursor(offset, length, EndOf(c, i), p, d))
  }

  // The zones that the request has used so far.
  ghost predicate CountedFor(g: Goal, at: map<Loc, nat>, n: nat, done: nat) {
    && SpaceOk(g.space) && g.space.job.(zones := 0) == Job(g.was, g.offset, g.length, 0)
    && (g.write ==> g.space.counted(at, n, done))
  }

  // The walk is about to look at the place that starts at byte `at_`. Until the first data have been transferred
  // the cursor is exact; afterwards it may be too high, but it is still a multiple of the block size.
  ghost predicate Cursor(offset: nat, length: nat, at_: nat, position: nat, done: nat) {
    && done < length
    && if done == 0 then position == at_ <= offset
       else offset + done == at_ <= position && Aligned(position)
  }

  ghost predicate WalkDef(w: Walk, offset: nat, length: nat, l: Loc, ctx: Ctx, i: nat, position: nat, done: nat) {
    && w.before(l, position, done) == (IsLoc(l) && Cursor(offset, length, Start(l), position, done))
    && w.past(l, position, done) == (IsLoc(l) && PastEntry(offset, length, l, position, done))
    && w.between(ctx, i, position, done) == Cursor(offset, length, EndOf(ctx, i), position, done)
  }

  ghost predicate WalkOk(g: Goal) {
    forall l, c, i, p, d {:trigger WalkDef(g.walk, g.offset, g.length, l, c, i, p, d)} ::
      WalkDef(g.walk, g.offset, g.length, l, c, i, p, d)
  }

  // A multiple of the block size.
  ghost predicate Aligned(n: nat) {
    n == 0 || (n >= BLOCK && Aligned(n - BLOCK))
  }

  lemma {:induction false} AlignedIs(n: nat)
    ensures Aligned(n) <==> n % BLOCK == 0
  {
    if n >= BLOCK {
      AlignedIs(n - BLOCK);
    }
  }

  // The zones that may be handed out.
  ghost predicate FreeOk(t: Tree, free: seq<nat>) {
    && (forall i :: 0 <= i < |free| ==> 0 < free[i] < 0x1_0000_0000 && free[i] !in t.place)
    && (forall i, j :: 0 <= i < j < |free| ==> free[i] != free[j])
    && (forall l {:trigger SmallOk(t, l)} :: SmallOk(t, l))
  }

  // Zone numbers are stored in 32 bits.
  ghost predicate SmallOk(t: Tree, l: Loc) {
    l in t.at ==> t.at[l] < 0x1_0000_0000
  }

  // Every table is on disk as it should be, except for those that are being edited in memory.
  ghost predicate Synced(t: Tree, open: set<nat>) {
    forall l {:trigger SyncOk(t, open, l)} :: SyncOk(t, open, l)
  }

  ghost predicate SyncOk(t: Tree, open: set<nat>, l: Loc) {
    l in t.at && IsLoc(l) && Left(l) > 0 && t.at[l] !in open ==>
      t.at[l] in t.disk && t.at[l] in t.tables && TableBytes(t.disk[t.at[l]], t.tables[t.at[l]])
  }

  // What lies on the disk at the place of a pointer, between two requests: the four bytes of the pointer, the least
  // significant one first.
  lemma PointerOnDisk(t: Tree, l: Loc, i: nat)
    requires WF(t) && Synced(t, {}) && l in t.at && IsLoc(l) && Left(l) > 0 && i < POINTERS
    ensures t.at[l] in t.disk
    ensures var z, w := t.disk[t.at[l]], Get(t, Child(l, i));
            && z[4 * i] as nat == w % 0x100 && z[4 * i + 1] as nat == w / 0x100 % 0x100
            && z[4 * i + 2] as nat == w / 0x1_0000 % 0x100 && z[4 * i + 3] as nat == w / 0x100_0000
  {
    assert SyncOk(t, {}, l);
    var z, table := t.disk[t.at[l]], t.tables[t.at[l]];
    DecodesIff(z, table);
    TableEntries(t, l, table);
    assert EntryIs(t, In(l), table, i) && PointerBytes(z, i, table[i]);
  }

  // The file system as it lies on the disk: pointer `i` of the table in zone `z`.
  function PointerAt(disk: map<nat, Zone>, z: nat, i: nat): nat
    requires i < 256
  {
    if z == 0 || z !in disk then 0
    else
      var b := disk[z];
      b[4 * i] as nat + 0x100 * (b[4 * i + 1] as nat) + 0x1_0000 * (b[4 * i + 2] as nat)
      + 0x100_0000 * (b[4 * i + 3] as nat)
  }

  // The zone of byte `pos` of a file with these zones in its node: seven direct ones, then the pointers of zone 7, then
  // those of the tables of zone 8.
  function ZoneAt(disk: map<nat, Zone>, zones: seq<nat>, pos: nat): nat
    requires |zones| >= 9 && pos < LIMIT
  {
    var b := pos / 1024;
    if b < 7 then zones[b]
    else if b < 263 then PointerAt(disk, zones[7], b - 7)
    else PointerAt(disk, PointerAt(disk, zones[8], (b - 263) / 256), (b - 263) % 256)
  }

  // Between two requests the disk holds the file, as a reader finds it who has only the disk and the zones of the node.
  lemma FileOnDisk(t: Tree, pos: nat)
    requires WF(t) && Synced(t, {}) && pos < LIMIT
    ensures var z := ZoneAt(t.disk, t.roots, pos);
            ByteAt(t, pos) == if z == 0 || z !in t.disk then 0 else t.disk[z][pos % 1024]
  {
    var b := pos / 1024;
    RootOnDisk(t, if b < 7 then b else if b < 263 then 7 else 8);
    if 7 <= b < 263 {
      ChildOnDisk(t, Loc(7, []), b - 7);
    } else if b >= 263 {
      ChildOnDisk(t, Loc(8, []), (b - 263) / 256);
      ChildOnDisk(t, Child(Loc(8, []), (b - 263) / 256), (b - 263) % 256);
      assert Child(Child(Loc(8, []), (b - 263) / 256), (b - 263) % 256).path == LeafOf(pos).path;
    }
  }

  lemma RootOnDisk(t: Tree, root: nat)
    requires WF(t) && root < ROOTS
    ensures ZoneFor(t, Loc(root, [])) == t.roots[root]
  {
  }

  lemma ChildOnDisk(t: Tree, l: Loc, i: nat)
    requires WF(t) && Synced(t, {}) && IsLoc(l) && Left(l) > 0 && i < POINTERS
    ensures ZoneFor(t, Child(l, i)) == PointerAt(t.disk, ZoneFor(t, l), i)
  {
    ZoneForIsAt(t, l);
    ZoneForIsAt(t, Child(l, i));
    assert LocOk(t, l) && ZoneOk(t, l) && LocOk(t, Child(l, i)) && ZoneOk(t, Child(l, i));
    if l in t.at {
      PointerOnDisk(t, l, i);
      var z := t.disk[t.at[l]];
      DigitsUnique(Get(t, Child(l, i)), z[4 * i] as nat, z[4 * i + 1] as nat, z[4 * i + 2] as nat,
          z[4 * i + 3] as nat);
    } else {
      BelowHole(t, l, Child(l, i));
    }
  }

  // The tables in memory lie above the places of path length `n`.
  ghost predicate OpenAbove(t: Tree, open: set<nat>, n: nat) {
    forall z {:trigger OpenOk(t, z, n)} :: z in open ==> OpenOk(t, z, n)
  }

  ghost predicate OpenOk(t: Tree, z: nat, n: nat) {
    z in t.place && z in t.disk && IsLoc(t.place[z]) && Left(t.place[z]) > 0 && |t.place[z].path| < n
  }

  // From `t` to `u` only pointers at and below `l` have changed, and no table in memory has been touched on disk.
  ghost predicate Within(t: Tree, u: Tree, l: Loc, open: set<nat>) {
    && KeptRoots(t, u)
    && (forall q {:trigger KeptPointer(t, u, q)} :: IsLoc(q) && !Below(q, l) ==> KeptPointer(t, u, q))
    && (forall q {:trigger KeptLoc(t, u, q)} :: KeptLoc(t, u, q))
    && (forall z {:trigger KeptZone(t, u, open, z)} :: KeptZone(t, u, open, z))
  }

  // The zone of the triple-indirect table.
  ghost predicate KeptRoots(t: Tree, u: Tree) {
    |u.roots| == |t.roots| && forall i :: ROOTS <= i < |t.roots| ==> u.roots[i] == t.roots[i]
  }

  ghost predicate KeptPointer(t: Tree, u: Tree, q: Loc) {
    Get(u, q) == Get(t, q)
  }

  // What lies somewhere stays there.
  ghost predicate KeptLoc(t: Tree, u: Tree, q: Loc) {
    q in t.at ==> q in u.at && u.at[q] == t.at[q]
  }

  ghost predicate KeptZone(t: Tree, u: Tree, open: set<nat>, z: nat) {
    && (z in open && z in t.disk ==> z in u.disk && u.disk[z] == t.disk[z])
    && (z in t.place ==> z in u.place && u.place[z] == t.place[z])
  }

  class MinixFile {
    var disk: map<nat, Zone>
    var free: seq<nat>
    // The node
    var zones: seq<nat>
    var size: nat
    // The request and the cursor of the walk
    var write: bool
    var offset: nat
    var left: nat
    var input: seq<byte>
    var output: seq<byte>
    ghost var tree: Tree
    ghost var open: set<nat>
    ghost var goal: Goal

    ghost predicate TreeOk()
      reads this
    {
      WF(tree) && tree.disk == disk && FreeOk(tree, free) && Synced(tree, open)
    }

    // Between requests.
    ghost predicate Valid()
      reads this
    {
      TreeOk() && open == {} && zones == tree.roots && |zones| == 10 && size <= LIMIT
    }

    // During a request.
    ghost predicate Walking()
      reads this
    {
      && TreeOk() && left <= goal.length && write == goal.write && offset == goal.offset
      && Moved(goal, tree, goal.length - left, input, output)
      && CountedFor(goal, tree.at, |free|, goal.length - left) && WalkOk(goal)
    }

    // The cursor before and after a place, and before entry `i` of a scan.
    ghost predicate Before(l: Loc, position: nat)
      reads this
    {
      left <= goal.length && goal.walk.before(l, position, goal.length - left)
    }

    ghost predicate Past(l: Loc, position: nat)
      reads this
    {
      left <= goal.length && goal.walk.past(l, position, goal.length - left)
    }

    ghost predicate Between(ctx: Ctx, i: nat, position: nat)
      reads this
    {
      left <= goal.length && goal.walk.between(ctx, i, position, goal.length - left)
    }

    // There are no zones left, and the next byte of the request needs one.
    ghost predicate OutOfSpace()
      reads this
    {
      write && free == [] && left <= goal.length && goal.space.stopped(goal.length - left)
    }

    // How the walk comes back from a place, and from the first `i` entries of a scan.
    ghost predicate Visited(err: Error, l: Loc, position: nat)
      reads this
    {
      match err
      case Success => Past(l, position)
      case SuccessExit => left == 0
      case NoSpace => OutOfSpace()
    }

    ghost predicate Passed(err: Error, ctx: Ctx, i: nat, position: nat)
      reads this
    {
      match err
      case Success => Between(ctx, i, position)
      case SuccessExit => left == 0
      case NoSpace => OutOfSpace()
    }

    // The part of the callback that runs before a place is visited: a hole in the way of a write is filled.
    method PreCallback(l: Loc, v: nat) returns (ok: bool, v': nat)
      requires Walking() && IsLoc(l) && v == Get(tree, l) && left > 0 && OpenAbove(tree, open, |l.path|)
      requires Below(LeafOf(goal.offset + (goal.length - left)), l)
      requires l.path != [] ==> Parent(l) in tree.at && tree.at[Parent(l)] in open
      modifies this`tree, this`disk, this`free
      ensures Walking() && OpenAbove(tree, open, |l.path|) && Within(old(tree), tree, l, open)
      ensures v' == Get(tree, l) && (v != 0 || !write ==> v' == v)
      ensures !ok ==> OutOfSpace()
      ensures ok && write ==> v' != 0
      ensures !write ==> ok && tree == old(tree)
    {
      ok, v' := true, v;
      assert LocOk(tree, l);
      if write && v == 0 && left > 0 {
        if free == [] {
          SpaceStops(goal.space, tree.at, goal.length - left, l);
          return false, v;
        }
        v' := FillHole(l);
      }
    }

    // A free zone, filled with zeros, takes the place of a hole.
    method FillHole(l: Loc) returns (v: nat)
      requires Walking() && write && Hole(tree, l, open) && free != [] && OpenAbove(tree, open, |l.path|)
      requires left > 0 && Below(LeafOf(goal.offset + (goal.length - left)), l)
      modifies this`tree, this`disk, this`free
      ensures Walking() && OpenAbove(tree, open, |l.path|) && Within(old(tree), tree, l, open)
      ensures v == Get(tree, l) && v != 0
    {
      v := free[0];
      ghost var u := FillStep(goal, tree, free, open, l, goal.length - left, input, output);
      free := free[1..];
      disk := disk[v := ZeroZone()];
      tree := u;
    }

    // The part of the callback that transfers data, at a data zone or at a hole of any size.
    method MidCallback(l: Loc, v: nat, position: nat)
      requires Walking() && IsLoc(l) && v == Get(tree, l) && (Left(l) == 0 || v == 0) && (write ==> v != 0)
      requires Before(l, position) && offset < position + Size(Left(l))
      requires OpenAbove(tree, open, |l.path|)
      modifies this`tree, this`disk, this`left, this`input, this`output
      ensures Walking() && OpenAbove(tree, open, |l.path|) && Within(old(tree), tree, l, open) && Get(tree, l) == v
      ensures left < old(left)
      ensures left == 0 || Past(l, position)
    {
      var fileOffset := if offset > position then offset else position;
      var n := Min(left, position + Size(Left(l)) - fileOffset);
      PieceHere(goal, l, position, goal.length - left);
      TransferPiece(l, v, fileOffset % BLOCK, n);
    }

    method TransferPiece(l: Loc, v: nat, blockOffset: nat, n: nat)
      requires Walking() && IsLoc(l) && v == Get(tree, l) && (Left(l) == 0 || v == 0) && (write ==> v != 0)
      requires OpenAbove(tree, open, |l.path|) && 0 < n <= left
      requires var o := goal.offset + (goal.length - left);
        && Start(l) <= o && o + n <= Start(l) + Size(Left(l))
        && (Left(l) == 0 ==> blockOffset == o - Start(l) && blockOffset + n <= BLOCK)
      modifies this`tree, this`disk, this`left, this`input, this`output
      ensures Walking() && OpenAbove(tree, open, |l.path|) && Within(old(tree), tree, l, open) && Get(tree, l) == v
      ensures left == old(left) - n
    {
      assert LocOk(tree, l) && ZoneOk(tree, l);
      if write {
        WriteBytes(l, v, blockOffset, n);
      } else {
        ghost var done := goal.length - left;
        if v == 0 {
          HoleStep(goal, tree, l, done, n, input, output);
          output := output + seq(n, _ => 0);
        } else {
          DataStep(goal, tree, l, done, blockOffset, n, input, output);
          output := output + disk[v][blockOffset..blockOffset + n];
        }
        left := left - n;
      }
    }

    method WriteBytes(l: Loc, v: nat, blockOffset: nat, n: nat)
      requires Walking() && write && IsLoc(l) && Left(l) == 0 && l in tree.at && v == tree.at[l] && v in disk
      requires OpenAbove(tree, open, |l.path|) && 0 < n <= left
      requires blockOffset + n <= BLOCK && Start(l) + blockOffset == goal.offset + (goal.length - left)
      modifies this`tree, this`disk, this`left, this`input
      ensures Walking() && OpenAbove(tree, open, |l.path|) && Within(old(tree), tree, l, open)
              && Get(tree, l) == old(Get(tree, l))
      ensures left == old(left) - n
    {
      ghost var done := goal.length - left;
      ghost var u := WriteStep(goal, tree, free, open, l, done, blockOffset, n, input, output);
      var bytes := input[..n];
      disk := disk[v := Splice(disk[v], blockOffset, bytes)];
      tree := u;
      input := input[n..];
      left := left - n;
      assert TreeOk();
    }

    // One entry of the loop of minixZoneWalkRecScan: the three calls of the callback, and the descent.
    method VisitEntry(l: Loc, v: nat, position: nat) returns (err: Error, v': nat, position': nat)
      requires Walking() && IsLoc(l) && v == Get(tree, l) && OpenAbove(tree, open, |l.path|)
      requires l.path != [] ==> Parent(l) in tree.at && tree.at[Parent(l)] in open
      requires Before(l, position) && offset < position + Size(Left(l))
      modifies this`tree, this`disk, this`left, this`input, this`output, this`free, this`open
      ensures Walking() && open == old(open) && OpenAbove(tree, open, |l.path|) && Within(old(tree), tree, l, open)
      ensures v' == Get(tree, l) && left <= old(left) && (!write ==> v' == v)
      ensures Visited(err, l, position')
      decreases Left(l), 1
    {
      var ok;
      err, position' := Success, position;
      NextByteBelow(goal, l, position, goal.length - left);
      ok, v' := PreCallback(l, v);
      if !ok {
        return NoSpace, v', position;
      }
      ghost var between := tree;
      err, position' := VisitBelow(l, v', position);
      WithinTrans(old(tree), between, tree, l, open);
    }

    method VisitBelow(l: Loc, v: nat, position: nat) returns (err: Error, position': nat)
      requires Walking() && IsLoc(l) && v == Get(tree, l) && (write ==> v != 0) && OpenAbove(tree, open, |l.path|)
      requires Before(l, position) && offset < position + Size(Left(l))
      modifies this`tree, this`disk, this`left, this`input, this`output, this`free, this`open
      ensures Walking() && open == old(open) && OpenAbove(tree, open, |l.path|) && Within(old(tree), tree, l, open)
      ensures Get(tree, l) == v && left <= old(left)
      ensures Visited(err, l, position')
      decreases Left(l), 0
    {
      err, position' := Success, position;
      if Left(l) == 0 || v == 0 {
        MidCallback(l, v, position);
        if left == 0 {
          err := SuccessExit;
        }
      } else {
        assert LocOk(tree, l);
        err, position' := WalkRec(l, v, position);
      }
    }

    // minixZoneWalkRec: the table is edited in memory and written back at the end if it has changed.
    method WalkRec(l: Loc, zone: nat, position: nat) returns (err: Error, position': nat)
      requires Walking() && IsLoc(l) && Left(l) > 0 && l in tree.at && zone == tree.at[l]
               && OpenAbove(tree, open, |l.path|)
      requires Before(l, position) && offset < position + Size(Left(l))
      modifies this`tree, this`disk, this`left, this`input, this`output, this`free, this`open
      ensures Walking() && open == old(open) && OpenAbove(tree, open, |l.path|) && Within(old(tree), tree, l, open)
      ensures Get(tree, l) == zone && left <= old(left)
      ensures Visited(err, l, position')
      decreases Left(l) - 1, 8
    {
      ghost var was, others := tree, open;
      var table, changed;
      err, table, changed, position' := ScanTable(l, zone, position);
      WriteBack(l, zone, table, changed, was, others);
    }

    // The beginning of minixZoneWalkRec, up to the end of the scan.
    method ScanTable(l: Loc, zone: nat, position: nat)
      returns (err: Error, table: seq<nat>, changed: bool, position': nat)
      requires Walking() && IsLoc(l) && Left(l) > 0 && l in tree.at && zone == tree.at[l]
               && OpenAbove(tree, open, |l.path|)
      requires Before(l, position) && offset < position + Size(Left(l))
      modifies this`tree, this`disk, this`left, this`input, this`output, this`free, this`open
      ensures zone !in old(open) && open == old(open) + {zone} && left <= old(left) && zone in old(disk)
      ensures Scanned(In(l), Decode(old(disk)[zone]), table, changed, old(tree))
      ensures Visited(err, l, position')
      decreases Left(l) - 1, 7
    {
      FirstEntry(goal, l, position, goal.length - left);
      table := LoadTable(l, zone);
      err, table, changed, position' := Scan(In(l), table, position);
      SubtreePassed(err, l, position, old(left), position');
    }

    lemma SubtreePassed(err: Error, l: Loc, p0: nat, left0: nat, p1: nat)
      requires WalkOk(goal) && IsLoc(l) && Left(l) > 0 && left <= left0 <= goal.length
      requires goal.walk.before(l, p0, goal.length - left0) && goal.offset < p0 + Size(Left(l))
      requires Passed(err, In(l), POINTERS, p1)
      ensures Visited(err, l, p1)
    {
      SubtreeDone(goal, l, p0, goal.length - left0, p1, goal.length - left);
    }

    method LoadTable(l: Loc, zone: nat) returns (table: seq<nat>)
      requires Walking() && IsLoc(l) && Left(l) > 0 && l in tree.at && zone == tree.at[l]
               && OpenAbove(tree, open, |l.path|)
      modifies this`open
      ensures Walking() && zone !in old(open) && open == old(open) + {zone} && zone in disk
              && table == Decode(disk[zone])
      ensures Loaded(tree, In(l), table, open)
    {
      OpenTable(tree, open, l);
      table := Decode(disk[zone]);
      open := open + {zone};
    }

    // The end of minixZoneWalkRec.
    method WriteBack(l: Loc, zone: nat, table: seq<nat>, changed: bool, ghost was: Tree, ghost others: set<nat>)
      requires Walking() && WF(was) && OpenAbove(was, others, |l.path|)
      requires l in was.at && was.at[l] == zone && IsLoc(l) && Left(l) > 0 && zone !in others && open == others + {zone}
      requires zone in was.disk && Scanned(In(l), Decode(was.disk[zone]), table, changed, was)
      modifies this`tree, this`disk, this`open
      ensures Walking() && open == others && OpenAbove(tree, open, |l.path|) && Within(was, tree, l, open)
      ensures Get(tree, l) == zone
    {
      ghost var w := CloseTable(goal, was, tree, free, others, l, table, changed, goal.length - left, input, output);
      if changed {
        disk := disk[zone := Encode(table)];
      }
      tree := w;
      open := others;
    }

    // What holds all the way through a scan that began with the tree `was` and `table`, now `table'`.
    ghost predicate Scanned(ctx: Ctx, table: seq<nat>, table': seq<nat>, changed: bool, was: Tree)
      reads this
    {
      Walking() && InMemory(was, tree, ctx, table, table', changed, open, write)
    }

    // minixZoneWalkRecScan
    method Scan(ctx: Ctx, table: seq<nat>, position: nat)
      returns (err: Error, table': seq<nat>, changed: bool, position': nat)
      requires ValidCtx(ctx, |table|) && Walking() && Loaded(tree, ctx, table, open)
      requires Between(ctx, 0, position)
      modifies this`tree, this`disk, this`left, this`input, this`output, this`free, this`open
      ensures open == old(open) && Scanned(ctx, table, table', changed, old(tree)) && left <= old(left)
      ensures Passed(err, ctx, |table|, position')
      decreases CtxLeft(ctx), 6
    {
      ScanBegins(tree, ctx, |table|, open);
      err, table', changed, position' := ScanLoop(ctx, table, position, tree);
    }

    // Its loop, from the point where `table` has been loaded.
    method ScanLoop(ctx: Ctx, table: seq<nat>, position: nat, ghost was: Tree)
      returns (err: Error, table': seq<nat>, changed: bool, position': nat)
      requires Scanned(ctx, table, table, false, was) && Between(ctx, 0, position)
      modifies this`tree, this`disk, this`left, this`input, this`output, this`free, this`open
      ensures open == old(open) && Scanned(ctx, table, table', changed, was) && left <= old(left)
      ensures Passed(err, ctx, |table|, position')
      decreases CtxLeft(ctx), 5
    {
      err, table', changed, position' := Success, table, false, position;
      var i := 0;
      while i < |table| && err.Success?
        invariant i <= |table| && open == old(open) && Scanned(ctx, table, table', changed, was) && left <= old(left)
        invariant Passed(err, ctx, i, position')
      {
        err, table', changed, position' := ScanRound(ctx, i, table, table', changed, position', was);
        i := i + 1;
      }
      PassedAll(err, ctx, i, |table|, position');
    }

    lemma PassedAll(err: Error, ctx: Ctx, i: nat, n: nat, position: nat)
      requires Passed(err, ctx, i, position) && (i == n || !err.Success?)
      ensures Passed(err, ctx, n, position)
    {
    }

    // One round of its loop.
    method ScanRound(ctx: Ctx, i: nat, ghost table: seq<nat>, table0: seq<nat>, changed0: bool, position: nat,
                     ghost was: Tree)
      returns (err: Error, table': seq<nat>, changed: bool, position': nat)
      requires i < |table| && Scanned(ctx, table, table0, changed0, was) && Between(ctx, i, position)
      modifies this`tree, this`disk, this`left, this`input, this`output, this`free, this`open
      ensures open == old(open) && Scanned(ctx, table, table', changed, was) && left <= old(left)
      ensures Passed(err, ctx, i + 1, position')
      decreases CtxLeft(ctx), 4
    {
      EntryDepth(ctx, |table|, i);
      var size := Size(CtxLeft(ctx));
      if offset < position + size {
        err, table', changed, position' := ScanEntry(ctx, i, table, table0, changed0, position, size, was);
      } else {
        err, table', changed := Success, table0, changed0;
        position' := PassOver(ctx, |table|, i, position, size);
      }
    }

    // An entry that lies before the request.
    method PassOver(ctx: Ctx, ghost n: nat, ghost i: nat, position: nat, size: nat) returns (position': nat)
      requires Walking() && ValidCtx(ctx, n) && i < n && CtxLeft(ctx) <= 2 && size == Size(CtxLeft(ctx))
      requires Between(ctx, i, position) && goal.offset >= position + size
      ensures Passed(Success, ctx, i + 1, position')
    {
      position' := position + size;
      CursorSkip(goal, ctx, n, i, position, size, goal.length - left);
    }

    // An entry that is visited, in terms of the whole scan.
    method ScanEntry(ctx: Ctx, i: nat, ghost table: seq<nat>, table0: seq<nat>, changed0: bool, position: nat,
                     size: nat, ghost was: Tree)
      returns (err: Error, table': seq<nat>, changed: bool, position': nat)
      requires i < |table| && Scanned(ctx, table, table0, changed0, was) && Between(ctx, i, position)
      requires CtxLeft(ctx) <= 2 && size == Size(CtxLeft(ctx)) && offset < position + size
      modifies this`tree, this`disk, this`left, this`input, this`output, this`free, this`open
      ensures open == old(open) && Scanned(ctx, table, table', changed, was) && left <= old(left)
      ensures Passed(err, ctx, i + 1, position')
      decreases CtxLeft(ctx), 3
    {
      Entered(ctx, |table|, i, position);
      err, table', changed, position' := VisitInTable(ctx, i, table, table0, changed0, position, was);
      LeftBehind(err, ctx, |table|, i, position', size);
      position' := position' + size;
    }

    lemma Entered(ctx: Ctx, n: nat, i: nat, position: nat)
      requires Walking() && ValidCtx(ctx, n) && i < n && Between(ctx, i, position)
      ensures Before(EntryOf(ctx, i), position)
    {
      CursorEnter(goal, ctx, n, i, position, goal.length - left);
    }

    lemma LeftBehind(err: Error, ctx: Ctx, n: nat, i: nat, position: nat, size: nat)
      requires Walking() && ValidCtx(ctx, n) && i < n && CtxLeft(ctx) <= 2 && size == Size(CtxLeft(ctx))
      requires Visited(err, EntryOf(ctx, i), position)
      ensures Passed(err, ctx, i + 1, position + size)
    {
      CursorLeave(goal, ctx, n, i, position, size, goal.length - left);
    }

    method VisitInTable(ctx: Ctx, i: nat, ghost table: seq<nat>, table0: seq<nat>, changed0: bool, position: nat,
                        ghost was: Tree)
      returns (err: Error, table': seq<nat>, changed: bool, position': nat)
      requires i < |table| && Scanned(ctx, table, table0, changed0, was)
      requires CtxLeft(ctx) <= 2 && Before(EntryOf(ctx, i), position) && offset < position + Size(CtxLeft(ctx))
      modifies this`tree, this`disk, this`left, this`input, this`output, this`free, this`open
      ensures open == old(open) && Scanned(ctx, table, table', changed, was) && left <= old(left)
      ensures Visited(err, EntryOf(ctx, i), position')
      decreases CtxLeft(ctx), 2
    {
      ghost var before := tree;
      var v;
      EntryDepth(ctx, |table|, i);
      EntryReady(tree, ctx, table0, i, open);
      err, v, position' := VisitEntry(EntryOf(ctx, i), table0[i], position);
      table' := table0[i := v];
      changed := changed0 || v != table0[i];
      EntryDone(was, before, tree, ctx, table, table0, changed0, i, v, open, write);
    }

    // One of the calls in minixZoneWalk: a scan of zones of the node.
    method ScanZones(first: nat, n: nat, position: nat) returns (err: Error, position': nat)
      requires ValidCtx(Top(first), n) && Walking() && open == {} && zones == tree.roots && |zones| == 10
      requires Between(Top(first), 0, position)
      modifies this`tree, this`disk, this`left, this`input, this`output, this`free, this`open, this`zones
      ensures Walking() && open == {} && zones == tree.roots && |zones| == 10
      ensures Passed(err, Top(first), n, position')
    {
      ghost var was := tree;
      var table, changed;
      TopLoaded(tree, first, n);
      var part := zones[first..first + n];
      err, table, changed, position' := Scan(Top(first), part, position);
      TopDone(was, tree, first, n, table);
      zones := Splice(zones, first, table);
    }

    // minixZoneWalk. The walk is over before the triple-indirect zone.
    method ZoneWalk() returns (err: Error)
      requires Walking() && open == {} && zones == tree.roots && |zones| == 10 && 0 < left == goal.length
      modifies this`tree, this`disk, this`left, this`input, this`output, this`free, this`open, this`zones
      ensures Walking() && open == {} && zones == tree.roots && |zones| == 10
      ensures !err.Success? && (err.SuccessExit? ==> left == 0) && (err.NoSpace? ==> OutOfSpace())
    {
      var position;
      WalkBegins(goal);
      err, position := ScanZones(0, 7, 0);
      if err.Success? {
        NextZones(goal, position, goal.length - left);
        err, position := ScanZones(7, 1, position);
      }
      if err.Success? {
        NextZones(goal, position, goal.length - left);
        err, position := ScanZones(8, 1, position);
        WalkOver(err, position);
      }
    }

    // Behind the last zone there is nothing left to transfer.
    lemma WalkOver(err: Error, position: nat)
      requires Walking() && Passed(err, Top(8), 1, position)
      ensures !err.Success?
    {
      NextZones(goal, position, goal.length - left);
    }

    // The request that minixReadWrite sets up, and its walk.
    method Transfer(buffer: seq<byte>, from: nat, n: nat, isWrite: bool) returns (err: Error, ghost space: Space)
      requires Valid() && n > 0 && (isWrite ==> |buffer| == n) && from + n <= LIMIT
      modifies this
      ensures Valid() && size == old(size) && !err.Success? && left <= n
      ensures err.SuccessExit? ==> left == 0
      ensures SpaceOk(space) && space.job == Job(old(tree), from, n, |old(free)|)
      ensures err.NoSpace? ==> isWrite && free == [] && space.stopped(n - left) && space.demand(n) > |old(free)|
      ensures isWrite && err.SuccessExit? ==> |free| + space.demand(n) == |old(free)|
      ensures isWrite ==> Written(old(tree), tree, from, buffer, n - left)
      ensures !isWrite ==> tree == old(tree) && output == ReadBytes(tree, from, n)
    {
      Begin(buffer, from, n, isWrite);
      space := goal.space;
      err := ZoneWalk();
      RequestDone(goal, tree, |free|, n - left, input, output);
    }

    method Begin(buffer: seq<byte>, from: nat, n: nat, isWrite: bool)
      requires Valid() && (isWrite ==> |buffer| == n) && from + n <= LIMIT
      modifies this`write, this`offset, this`left, this`input, this`output, this`goal
      ensures Walking() && left == n
      ensures goal == Goal(tree, isWrite, from, n, buffer, goal.space, goal.moved, goal.walk)
              && goal.space.job == Job(tree, from, n, |free|)
    {
      write, offset, left, input, output := isWrite, from, n, buffer, [];
      goal := NewGoal(tree, isWrite, from, n, buffer, |free|);
      assert MovedAt(goal, tree, 0, buffer, []);
      SpaceBegins(goal.space);
    }

    // minixReadWrite
    method ReadWrite(buffer: seq<byte>, from: nat, length: nat, isWrite: bool)
      returns (err: Error, ret: nat, ghost k: nat, ghost space: Space)
      requires Valid() && (isWrite ==> |buffer| == length && from + length <= LIMIT)
      modifies this
      ensures Valid() && !err.SuccessExit? && (err.NoSpace? ==> isWrite && free == [] && ret == 0)
      ensures !isWrite ==>
                tree == old(tree) && output == ReadBytes(tree, from, Readable(size, from, length)) && ret == |output|
      ensures isWrite && err.Success? ==> ret == length && Written(old(tree), tree, from, buffer, length)
      ensures isWrite ==> SpaceOk(space) && space.job == Job(old(tree), from, length, |old(free)|)
      ensures isWrite ==> (err.NoSpace? <==> space.demand(length) > |old(free)|)
      ensures isWrite && err.Success? ==> |free| + space.demand(length) == |old(free)|
      ensures isWrite && err.NoSpace? ==> space.stopped(k)
      ensures isWrite && err.NoSpace? ==> Written(old(tree), tree, from, buffer, k)
      ensures size == if isWrite && err.Success? then NewSize(old(size), from, length) else old(size)
    {
      var n := if isWrite then length else Readable(size, from, length);
      output := [];
      if n == 0 {
        space := SpaceOf(Job(tree, from, length, |free|));
        SpaceMeans(space, 0);
        return Success, 0, 0, space;
      }
      err, space := Transfer(buffer, from, n, isWrite);
      if err.NoSpace? {
        return err, 0, n - left, space;
      }
      ret := n - left;
      if isWrite && from + ret > size {
        size := from + ret;
      }
      err, k := Success, ret;
    }

    // A new file.
    constructor (zonesToGive: seq<nat>)
      requires FreeOk(EmptyTree(), zonesToGive)
      ensures Valid() && Clean() && Contents() == [] && tree == EmptyTree() && free == zonesToGive && size == 0
    {
      disk, free, zones, size := map[], zonesToGive, EmptyTree().roots, 0;
      write, offset, left, input, output := false, 0, 0, [], [];
      tree, open := EmptyTree(), {};
      goal := NewGoal(EmptyTree(), false, 0, 0, [], 0);
      new;
      EmptyFile();
    }

    // The file as a flat sequence of bytes.
    ghost function Contents(): seq<byte>
      reads this
    {
      FlatOf(tree, size)
    }

    // The disk and the zones of the node are all that it takes to find the contents.
    lemma ContentsOnDisk(pos: nat)
      requires Valid() && pos < size
      ensures |Contents()| == size
      ensures var z := ZoneAt(disk, zones, pos);
              Contents()[pos] == if z == 0 || z !in disk then 0 else disk[z][pos % 1024]
    {
      FileOnDisk(tree, pos);
    }

    // There is nothing behind the end of the file. (A write that has failed may have left data there.)
    ghost predicate Clean()
      reads this
    {
      ZeroFrom(tree, size)
    }

    // minixReadAt
    method ReadAt(from: nat, length: nat) returns (data: seq<byte>)
      requires Valid()
      modifies this
      ensures Valid() && tree == old(tree) && size == old(size)
      ensures data == FlatRead(Contents(), from, length)
    {
      var _, n, _, _ := ReadWrite([], from, length, false);
      data := output;
      ReadIsFlat(tree, size, from, length);
    }

    // minixWriteAt
    method WriteAt(from: nat, buffer: seq<byte>) returns (err: Error, ret: nat, ghost k: nat)
      requires Valid() && from + |buffer| <= LIMIT
      modifies this
      ensures Valid() && !err.SuccessExit?
      ensures err.Success? ==>
                ret == |buffer| && (old(Clean()) ==> Clean() && Contents() == FlatWrite(old(Contents()), from, buffer))
      ensures err.Success? ==> Written(old(tree), tree, from, buffer, |buffer|)
      ensures err.Success? ==>
                (Contents() == FlatWrite(old(Contents()), from, buffer) <==>
                   buffer == [] || ZeroGap(old(tree), old(size), from))
      ensures err.NoSpace? ==> ret == 0 && free == [] && size == old(size)
      ensures err.NoSpace? <==> |Needed(old(tree), from, |buffer|)| > |old(free)|
      ensures err.Success? ==> |free| + |Needed(old(tree), from, |buffer|)| == |old(free)|
      ensures err.NoSpace? ==>
                Stopped(Job(old(tree), from, |buffer|, |old(free)|), k) && Written(old(tree), tree, from, buffer, k)
    {
      ghost var space;
      err, ret, k, space := ReadWrite(buffer, from, |buffer|, true);
      SpaceMeans(space, k);
      SpaceMeans(space, |buffer|);
      if err.Success? {
        WriteFlatIff(old(tree), old(size), tree, from, buffer);
        if ZeroFrom(old(tree), old(size)) {
          WriteIsFlat(old(tree), old(size), tree, from, buffer);
        }
      }
    }

    // One request.
    method Serve(request: Request) returns (answer: seq<byte>, err: Error)
      requires Valid() && Clean() && (request.Write? ==> request.from + |request.bytes| <= LIMIT)
      modifies this
      ensures Valid() && (err.Success? || (err.NoSpace? && free == []))
      ensures err.Success? ==> Clean() && FlatStep(old(Contents()), request) == (answer, Contents())
    {
      answer, err := [], Success;
      match request {
        case Read(from, length) =>
          answer := ReadAt(from, length);
        case Write(from, bytes) =>
          var ret;
          ghost var k;
          err, ret, k := WriteAt(from, bytes);
      }
    }

    // Any number of requests: until a write fails for want of space, the file is the flat file.
    method Run(requests: seq<Request>) returns (answers: seq<seq<byte>>, err: Error)
      requires Valid() && Clean()
      requires forall r :: r in requests && r.Write? ==> r.from + |r.bytes| <= LIMIT
      modifies this
      ensures Valid() && (err.Success? || (err.NoSpace? && free == []))
      ensures |answers| <= |requests| && (err.Success? ==> |answers| == |requests|)
      ensures answers == FlatRun(old(Contents()), requests[..|answers|]).0
      ensures err.Success? ==> Clean() && Contents() == FlatRun(old(Contents()), requests).1
    {
      answers, err := [], Success;
      var i := 0;
      while i < |requests|
        invariant i <= |requests| && |answers| == i && Valid() && Clean() && err.Success?
        invariant FlatRun(old(Contents()), requests[..i]) == (answers, Contents())
      {
        FlatRunNext(old(Contents()), requests, i, answers, Contents());
        assert requests[i] in requests;
        var answer;
        answer, err := Serve(requests[i]);
        if !err.Success? {
          return;
        }
        answers := answers + [answer];
        i := i + 1;
      }
      assert requests[..i] == requests;
    }
  }

  // A new file on a disk with one free zone: of two blocks the first one is written, and the size stays 0.
  method NoSpaceExample(b: seq<byte>) returns (file: MinixFile, err: Error)
    requires |b| == 2 * BLOCK
    ensures fresh(file) && file.Valid() && err.NoSpace? && file.size == 0
    ensures forall i: nat :: i < BLOCK ==> ByteAt(file.tree, i) == b[i]
  {
    file := new MinixFile([5]);
    ghost var job := Job(file.tree, 0, |b|, 1);
    OneZone(job);
    var ret;
    ghost var k;
    err, ret, k := file.WriteAt(0, b);
    StoppedNeedsMore(job, BLOCK);
    StoppedUnique(job, k, BLOCK);
  }

  // The next write to this file, behind its first bytes, shows the block that has been left there.
  method StaleExample(b: seq<byte>, x: byte) returns (file: MinixFile, err: Error)
    requires |b| == 2 * BLOCK && b[0] != 0
    ensures err.Success? && file.Contents() != FlatWrite([], BLOCK - 1, [x])
  {
    file, err := NoSpaceExample(b);
    ZoneThere(file.tree);
    assert ByteAt(file.tree, 0) == b[0] && file.Contents() == [];
    var ret;
    ghost var k;
    err, ret, k := file.WriteAt(BLOCK - 1, [x]);
  }

  lemma ZoneThere(t: Tree)
    requires WF(t) && ByteAt(t, 0) != 0
    ensures Needed(t, BLOCK - 1, 1) == {}
  {
    var leaf := Loc(0, []);
    if leaf !in t.at {
      HoleBytes(t, leaf);
    }
    assert LeafOf(BLOCK - 1) == leaf && Ancestor(leaf, 0) == leaf;
    assert HolesOf(t, leaf) == {};
    assert Needed(t, BLOCK - 1, 0) == {};
  }

  lemma OneZone(job: Job)
    requires job.was.at == map[] && job.from == 0 && job.length == 2 * BLOCK && job.zones == 1
    ensures Stopped(job, BLOCK)
  {
    FirstZone(job.was, BLOCK);
    assert HolesOf(job.was, LeafOf(BLOCK)) == {Loc(1, [])} by {
      assert Ancestor(LeafOf(BLOCK), 0) == Loc(1, []);
    }
    assert Needed(job.was, 0, BLOCK + 1) == {Loc(0, []), Loc(1, [])};
  }

  lemma {:induction false} FirstZone(t: Tree, n: nat)
    requires t.at == map[] && 0 < n <= BLOCK
    ensures Needed(t, 0, n) == {Loc(0, [])}
    decreases n
  {
    assert HolesOf(t, LeafOf(n - 1)) == {Loc(0, [])} by {
      assert Ancestor(LeafOf(n - 1), 0) == Loc(0, []);
    }
    if n > 1 {
      FirstZone(t, n - 1);
    }
  }

  // ---- The flat file

  datatype Request = Read(from: nat, length: nat) | Write(from: nat, bytes: seq<byte>)

  function FlatRead(c: seq<byte>, from: nat, length: nat): seq<byte> {
    if from > |c| then [] else c[from..from + Min(length, |c| - from)]
  }

  // Writing behind the end leaves a gap of zeros.
  function FlatWrite(c: seq<byte>, from: nat, b: seq<byte>): seq<byte> {
    if b == [] then c
    else
      var wide := if from + |b| <= |c| then c else c + seq(from + |b| - |c|, _ => 0);
      Splice(wide, from, b)
  }

  // Byte by byte: what a read gives, and what a write leaves.
  lemma FlatBytes(c: seq<byte>, from: nat, length: nat, b: seq<byte>)
    ensures |FlatRead(c, from, length)| == if from >= |c| then 0 else if from + length <= |c| then length
            else |c| - from
    ensures forall i :: 0 <= i < |FlatRead(c, from, length)| ==> FlatRead(c, from, length)[i] == c[from + i]
    ensures |FlatWrite(c, from, b)| == if b == [] || from + |b| <= |c| then |c| else from + |b|
    ensures forall i :: 0 <= i < |FlatWrite(c, from, b)| ==>
              FlatWrite(c, from, b)[i] == if from <= i < from + |b| then b[i - from] else if i < |c| then c[i] else 0
  {
  }

  // The answers to the requests, and the file after them.
  function FlatRun(c: seq<byte>, requests: seq<Request>): (seq<seq<byte>>, seq<byte>) {
    if requests == [] then ([], c)
    else
      var (answers, d) := FlatRun(c, requests[..|requests| - 1]);
      var (answer, e) := FlatStep(d, requests[|requests| - 1]);
      (answers + [answer], e)
  }

  lemma FlatRunNext(c: seq<byte>, requests: seq<Request>, i: nat, answers: seq<seq<byte>>, d: seq<byte>)
    requires i < |requests| && FlatRun(c, requests[..i]) == (answers, d)
    ensures FlatRun(c, requests[..i + 1]) == (answers + [FlatStep(d, requests[i]).0], FlatStep(d, requests[i]).1)
  {
    assert requests[..i + 1][..i] == requests[..i];
  }

  function FlatStep(c: seq<byte>, request: Request): (seq<byte>, seq<byte>) {
    match request
    case Read(from, length) => (FlatRead(c, from, length), c)
    case Write(from, b) => ([], FlatWrite(c, from, b))
  }

  ghost predicate ZeroFrom(t: Tree, size: nat) {
    forall pos: nat {:trigger ByteAt(t, pos)} :: size <= pos < LIMIT ==> ByteAt(t, pos) == 0
  }

  ghost function FlatOf(t: Tree, size: nat): seq<byte> {
    ReadBytes(t, 0, size)
  }

  lemma ReadIsFlat(t: Tree, size: nat, from: nat, length: nat)
    ensures ReadBytes(t, from, Readable(size, from, length)) == FlatRead(FlatOf(t, size), from, length)
  {
    var r, c := ReadBytes(t, from, Readable(size, from, length)), FlatOf(t, size);
    if from <= size {
      forall i: nat | i < |r| ensures r[i] == c[from..from + |r|][i] {
        assert c[from + i] == ByteAt(t, from + i);
      }
    }
  }

  lemma WriteIsFlat(t: Tree, size: nat, u: Tree, from: nat, b: seq<byte>)
    requires Written(t, u, from, b, |b|) && from + |b| <= LIMIT && size <= LIMIT && ZeroFrom(t, size)
    ensures ZeroFrom(u, NewSize(size, from, |b|))
    ensures FlatOf(u, NewSize(size, from, |b|)) == FlatWrite(FlatOf(t, size), from, b)
  {
    var c, d := FlatOf(t, size), FlatOf(u, NewSize(size, from, |b|));
    var e := FlatWrite(c, from, b);
    forall pos: nat | |d| <= pos < LIMIT ensures ByteAt(u, pos) == 0 {
      assert ByteAt(t, pos) == 0;
    }
    forall i: nat | i < |d| ensures d[i] == e[i] {
      assert d[i] == ByteAt(u, i);
      assert i < size ==> c[i] == ByteAt(t, i);
      assert i >= size ==> ByteAt(t, i) == 0;
    }
  }

  // There are only zeros from byte `from` up to byte `to`.
  ghost predicate ZeroGap(t: Tree, from: nat, to: nat) {
    forall pos: nat {:trigger ByteAt(t, pos)} :: from <= pos < to && pos < LIMIT ==> ByteAt(t, pos) == 0
  }

  // A write is a write to the flat file exactly if there is nothing in the gap that it leaves behind the end. (A
  // write that has failed may have left something there.)
  lemma WriteFlatIff(t: Tree, size: nat, u: Tree, from: nat, b: seq<byte>)
    requires Written(t, u, from, b, |b|) && from + |b| <= LIMIT && size <= LIMIT
    ensures FlatOf(u, NewSize(size, from, |b|)) == FlatWrite(FlatOf(t, size), from, b) <==>
              b == [] || ZeroGap(t, size, from)
  {
    var c, d := FlatOf(t, size), FlatOf(u, NewSize(size, from, |b|));
    var e := FlatWrite(c, from, b);
    assert |d| == |e|;
    forall i: nat | i < |d| ensures d[i] == e[i] <==> b == [] || !(size <= i < from) || ByteAt(t, i) == 0 {
      assert d[i] == ByteAt(u, i);
      assert i < size ==> c[i] == ByteAt(t, i);
    }
    if b != [] && !ZeroGap(t, size, from) {
      var pos: nat :| size <= pos < from && pos < LIMIT && ByteAt(t, pos) != 0;
      assert d[pos] != e[pos];
    }
  }

  function EmptyTree(): Tree {
    Tree(seq(10, _ => 0), map[], map[], map[], map[])
  }

  lemma EmptyFile()
    ensures WF(EmptyTree()) && Synced(EmptyTree(), {}) && ZeroFrom(EmptyTree(), 0)
  {
    var t := EmptyTree();
    forall pos: nat | pos < LIMIT ensures ByteAt(t, pos) == 0 {
      assert forall l: Loc :: l !in t.at;
      ZoneForIsAt(t, LeafOf(pos)) by {
        assert WF(t);
      }
    }
  }

  ghost function ReadBytes(t: Tree, from: nat, n: nat): seq<byte> {
    seq(n, i requires i >= 0 => ByteAt(t, from + i))
  }

  // How much of a request a file of `size` bytes can answer.
  function Readable(size: nat, from: nat, length: nat): nat {
    if size < from then 0 else Min(length, size - from)
  }

  function NewSize(size: nat, from: nat, length: nat): nat {
    if length == 0 || from + length <= size then size else from + length
  }

  // From `t` to `u` the first `k` bytes of `b` have been written at `from`, and nothing else has changed.
  ghost predicate Written(t: Tree, u: Tree, from: nat, b: seq<byte>, k: nat) {
    && k <= |b|
    && forall pos: nat {:trigger ByteAt(u, pos)} :: pos < LIMIT ==>
         ByteAt(u, pos) == if from <= pos < from + k then b[pos - from] else ByteAt(t, pos)
  }

  lemma RequestDone(g: Goal, t: Tree, zones: nat, done: nat, input: seq<byte>, output: seq<byte>)
    requires Moved(g, t, done, input, output) && CountedFor(g, t.at, zones, done)
    ensures g.write ==> Written(g.was, t, g.offset, g.bytes, done)
    ensures g.write && g.space.stopped(done) ==> g.space.demand(g.length) > g.space.job.zones
    ensures g.write && done == g.length ==> zones + g.space.demand(done) == g.space.job.zones
    ensures !g.write ==> t == g.was && output == ReadBytes(g.was, g.offset, done)
  {
    assert MovedAt(g, t, done, input, output);
    if g.write {
      SpaceUsed(g.space, t.at, zones, done);
    }
  }

  lemma TopLoaded(t: Tree, first: nat, n: nat)
    requires ValidCtx(Top(first), n) && |t.roots| == 10
    ensures Loaded(t, Top(first), t.roots[first..first + n], {})
  {
  }

  lemma TopDone(t: Tree, u: Tree, first: nat, n: nat, table: seq<nat>)
    requires ValidCtx(Top(first), n) && |t.roots| == 10 && |table| == n
    requires Loaded(u, Top(first), table, {}) && WithinScan(t, u, Top(first), n, {})
    ensures |u.roots| == 10 && u.roots == Splice(t.roots, first, table)
  {
    forall i | 0 <= i < 10 ensures u.roots[i] == Splice(t.roots, first, table)[i] {
      if first <= i < first + n {
        assert EntryIs(u, Top(first), table, i - first) && EntryOf(Top(first), i - first) == Loc(i, []);
      } else if i < ROOTS {
        assert KeptPointer(t, u, Loc(i, []));
      }
    }
  }

  // Skipping an entry before the request begins, and leaving one that has been visited.
  lemma CursorSkip(g: Goal, ctx: Ctx, n: nat, i: nat, position: nat, size: nat, done: nat)
    requires WalkOk(g) && ValidCtx(ctx, n) && i < n && CtxLeft(ctx) <= 2 && size == Size(CtxLeft(ctx))
    requires g.walk.between(ctx, i, position, done) && g.offset >= position + size
    ensures g.walk.between(ctx, i + 1, position + size, done)
  {
    var l := EntryOf(ctx, i);
    assert WalkDef(g.walk, g.offset, g.length, l, ctx, i, position, done)
           && WalkDef(g.walk, g.offset, g.length, l, ctx, i + 1, position + size, done);
    EntryFacts(ctx, n, i);
    SkipEntry(g, EndOf(ctx, i), EndOf(ctx, i + 1), position, done, size);
  }

  lemma CursorEnter(g: Goal, ctx: Ctx, n: nat, i: nat, position: nat, done: nat)
    requires WalkOk(g) && ValidCtx(ctx, n) && i < n && g.walk.between(ctx, i, position, done)
    ensures g.walk.before(EntryOf(ctx, i), position, done)
  {
    assert WalkDef(g.walk, g.offset, g.length, EntryOf(ctx, i), ctx, i, position, done);
    EntryFacts(ctx, n, i);
  }

  lemma CursorLeave(g: Goal, ctx: Ctx, n: nat, i: nat, position: nat, size: nat, done: nat)
    requires WalkOk(g) && ValidCtx(ctx, n) && i < n && CtxLeft(ctx) <= 2 && size == Size(CtxLeft(ctx))
    ensures g.walk.past(EntryOf(ctx, i), position, done) ==> g.walk.between(ctx, i + 1, position + size, done)
  {
    var l := EntryOf(ctx, i);
    assert WalkDef(g.walk, g.offset, g.length, l, ctx, i, position, done)
           && WalkDef(g.walk, g.offset, g.length, l, ctx, i + 1, position + size, done);
    EntryFacts(ctx, n, i);
    if g.walk.past(l, position, done) {
      LeaveEntry(g, l, EndOf(ctx, i + 1), position, done, size);
    }
  }

  lemma SkipEntry(g: Goal, here: nat, next: nat, position: nat, done: nat, size: nat)
    requires Cursor(g.offset, g.length, here, position, done) && g.offset >= position + size && next == here + size
    ensures Cursor(g.offset, g.length, next, position + size, done)
  {
  }

  lemma LeaveEntry(g: Goal, l: Loc, next: nat, position: nat, done: nat, size: nat)
    requires IsLoc(l) && PastEntry(g.offset, g.length, l, position, done)
    requires size == Size(Left(l)) && next == Start(l) + size
    ensures Cursor(g.offset, g.length, next, position + size, done)
  {
    WholeBlocks(position, Left(l), size);
  }

  // Where the walk begins, and from one scan of zones of the node to the next.
  lemma WalkBegins(g: Goal)
    requires WalkOk(g) && 0 < g.length
    ensures g.walk.between(Top(0), 0, 0, 0)
  {
    assert WalkDef(g.walk, g.offset, g.length, Loc(0, []), Top(0), 0, 0, 0);
  }

  lemma NextZones(g: Goal, position: nat, done: nat)
    requires WalkOk(g) && g.offset + g.length <= LIMIT
    ensures g.walk.between(Top(0), 7, position, done) ==> g.walk.between(Top(7), 0, position, done)
    ensures g.walk.between(Top(7), 1, position, done) ==> g.walk.between(Top(8), 0, position, done)
    ensures !g.walk.between(Top(8), 1, position, done)
  {
    assert WalkDef(g.walk, g.offset, g.length, Loc(0, []), Top(0), 7, position, done)
           && WalkDef(g.walk, g.offset, g.length, Loc(0, []), Top(7), 0, position, done);
    assert WalkDef(g.walk, g.offset, g.length, Loc(0, []), Top(7), 1, position, done)
           && WalkDef(g.walk, g.offset, g.length, Loc(0, []), Top(8), 0, position, done);
    assert WalkDef(g.walk, g.offset, g.length, Loc(0, []), Top(8), 1, position, done);
  }

  lemma WholeBlocks(position: nat, depth: nat, size: nat)
    requires depth <= 2 && size == Size(depth)
    ensures Aligned(position) ==> Aligned(position + size)
  {
    AlignedIs(position);
    AlignedIs(position + size);
  }

  // The entries that one scan looks at: zones of the node, or the entries of a table.
  datatype Ctx = Top(first: nat) | In(p: Loc)

  function EntryOf(ctx: Ctx, i: nat): Loc {
    match ctx
    case Top(first) => Loc(first + i, [])
    case In(p) => Child(p, i)
  }

  // A scan covers entries of the same depth: the direct zones, one indirect zone, or a whole table.
  predicate ValidCtx(ctx: Ctx, n: nat) {
    match ctx
    case Top(first) => (first == 0 && n == 7) || (first == 7 && n == 1) || (first == 8 && n == 1)
    case In(p) => IsLoc(p) && Left(p) > 0 && n == POINTERS
  }

  function CtxLeft(ctx: Ctx): nat {
    match ctx
    case Top(first) => Depth(first)
    case In(p) => if IsLoc(p) && Left(p) > 0 then Left(p) - 1 else 0
  }

  // Where the first `i` entries end.
  function EndOf(ctx: Ctx, i: nat): nat {
    var first := EntryOf(ctx, 0);
    (if IsLoc(first) then Start(first) else 0) + Stride(CtxLeft(ctx), i)
  }

  // The size of `i` entries.
  function Stride(depth: nat, i: nat): nat {
    if depth == 0 then i * 0x400 else if depth == 1 then i * 0x4_0000 else i * 0x400_0000
  }

  lemma EntryDepth(ctx: Ctx, n: nat, i: nat)
    requires ValidCtx(ctx, n) && i < n
    ensures IsLoc(EntryOf(ctx, i)) && Left(EntryOf(ctx, i)) == CtxLeft(ctx) <= 2
  {
    if ctx.In? {
      ChildDepth(ctx.p, i);
    }
  }

  lemma ChildDepth(p: Loc, i: nat)
    requires IsLoc(p) && Left(p) > 0 && i < POINTERS
    ensures IsLoc(Child(p, i)) && Left(Child(p, i)) == Left(p) - 1 <= 1
  {
  }

  lemma EntryFacts(ctx: Ctx, n: nat, i: nat)
    requires ValidCtx(ctx, n) && i < n
    ensures IsLoc(EntryOf(ctx, i)) && Left(EntryOf(ctx, i)) == CtxLeft(ctx) <= 2
    ensures Start(EntryOf(ctx, i)) == EndOf(ctx, i) && EndOf(ctx, i + 1) == EndOf(ctx, i) + Size(CtxLeft(ctx))
  {
    if ctx.In? {
      ChildStart(ctx.p, i);
      ChildStart(ctx.p, 0);
    }
  }

  lemma ChildStart(p: Loc, i: nat)
    requires IsLoc(p) && Left(p) > 0 && i < POINTERS
    ensures IsLoc(Child(p, i)) && Left(Child(p, i)) == Left(p) - 1 <= 1
    ensures Start(Child(p, i)) == Start(p) + Stride(Left(p) - 1, i)
  {
    var c := Child(p, i);
    assert c.path[|p.path|] == i;
    if |p.path| == 1 {
      assert c.path[0] == p.path[0];
    }
  }

  // `table` is in memory what the tree has in the entries of the scan.
  ghost predicate Loaded(t: Tree, ctx: Ctx, table: seq<nat>, open: set<nat>) {
    && (forall i: nat {:trigger EntryIs(t, ctx, table, i)} :: EntryIs(t, ctx, table, i))
    && (ctx.In? ==> ctx.p in t.at && t.at[ctx.p] in open)
    && OpenAbove(t, open, if ctx.In? then |ctx.p.path| + 1 else 0)
  }

  ghost predicate EntryIs(t: Tree, ctx: Ctx, table: seq<nat>, i: nat) {
    i < |table| ==> table[i] == Get(t, EntryOf(ctx, i))
  }

  predicate Covers(ctx: Ctx, n: nat, q: Loc) {
    match ctx
    case Top(first) => first <= q.root < first + n
    case In(p) => Below(q, p) && q != p
  }

  ghost predicate WithinScan(t: Tree, u: Tree, ctx: Ctx, n: nat, open: set<nat>) {
    && KeptRoots(t, u)
    && (forall q {:trigger KeptPointer(t, u, q)} :: IsLoc(q) && !Covers(ctx, n, q) ==> KeptPointer(t, u, q))
    && (forall q {:trigger KeptLoc(t, u, q)} :: KeptLoc(t, u, q))
    && (forall z {:trigger KeptZone(t, u, open, z)} :: KeptZone(t, u, open, z))
  }

  lemma ScanBegins(t: Tree, ctx: Ctx, n: nat, open: set<nat>)
    ensures WithinScan(t, t, ctx, n, open)
  {
  }

  // Loading the table at `l`.
  lemma OpenTable(t: Tree, open: set<nat>, l: Loc)
    requires WF(t) && Synced(t, open) && OpenAbove(t, open, |l.path|) && l in t.at && IsLoc(l) && Left(l) > 0
    ensures t.at[l] in t.disk && t.at[l] !in open && Synced(t, open + {t.at[l]})
    ensures Loaded(t, In(l), Decode(t.disk[t.at[l]]), open + {t.at[l]})
  {
    var z := t.at[l];
    assert ZoneOk(t, l) && SyncOk(t, open, l) && (z in open ==> OpenOk(t, z, |l.path|));
    DecodesIff(t.disk[z], t.tables[z]);
    TableEntries(t, l, Decode(t.disk[z]));
    OpenMore(t, open, z, |l.path|);
  }

  lemma OpenMore(t: Tree, open: set<nat>, z: nat, n: nat)
    requires Synced(t, open) && OpenAbove(t, open, n) && OpenOk(t, z, n + 1)
    ensures Synced(t, open + {z}) && OpenAbove(t, open + {z}, n + 1)
  {
    forall q ensures SyncOk(t, open + {z}, q) {
      assert SyncOk(t, open, q);
    }
    forall y | y in open + {z} ensures OpenOk(t, y, n + 1) {
      assert y in open ==> OpenOk(t, y, n);
    }
  }

  lemma FirstEntry(g: Goal, l: Loc, position: nat, done: nat)
    requires WalkOk(g) && IsLoc(l) && Left(l) > 0
    ensures ValidCtx(In(l), POINTERS) && (g.walk.before(l, position, done) ==> g.walk.between(In(l), 0, position, done))
  {
    assert WalkDef(g.walk, g.offset, g.length, l, In(l), 0, position, done);
    FirstStart(l);
  }

  lemma FirstStart(l: Loc)
    requires IsLoc(l) && Left(l) > 0
    ensures EndOf(In(l), 0) == Start(l) && EndOf(In(l), POINTERS) == Start(l) + Size(Left(l))
  {
    ChildStart(l, 0);
    WholeTable(Left(l) - 1);
    EndIs(In(l), 0);
    EndIs(In(l), POINTERS);
  }

  lemma WholeTable(depth: nat)
    requires depth <= 1
    ensures Stride(depth, 0) == 0 && Stride(depth, POINTERS) == Size(depth + 1)
  {
  }

  lemma EndIs(ctx: Ctx, i: nat)
    requires IsLoc(EntryOf(ctx, 0))
    ensures EndOf(ctx, i) == Start(EntryOf(ctx, 0)) + Stride(CtxLeft(ctx), i)
  {
  }

  lemma TableEntries(t: Tree, l: Loc, table: seq<nat>)
    requires l in t.at && t.at[l] in t.tables && t.tables[t.at[l]] == table
    ensures forall i: nat {:trigger EntryIs(t, In(l), table, i)} :: EntryIs(t, In(l), table, i)
  {
    forall i: nat ensures EntryIs(t, In(l), table, i) {
      assert EntryOf(In(l), i) == Child(l, i);
    }
  }

  // Giving it back, after the scan has gone from `t` to `u`: the new tree is `w`.
  lemma CloseTable(g: Goal, t: Tree, u: Tree, free: seq<nat>, open: set<nat>, l: Loc, table: seq<nat>, changed: bool,
                   done: nat, input: seq<byte>, output: seq<byte>) returns (w: Tree)
    requires WF(t) && l in t.at && IsLoc(l) && Left(l) > 0 && t.at[l] !in open
    requires WF(u) && Synced(u, open + {t.at[l]}) && FreeOk(u, free) && Moved(g, u, done, input, output)
    requires OpenAbove(t, open, |l.path|) && Loaded(u, In(l), table, open + {t.at[l]}) && |table| == POINTERS
    requires WithinScan(t, u, In(l), POINTERS, open + {t.at[l]})
    requires t.at[l] in t.disk && (changed || table == Decode(t.disk[t.at[l]])) && (changed ==> g.write)
    ensures w.at == u.at && w.disk == if changed then u.disk[t.at[l] := Encode(table)] else u.disk
    ensures WF(w) && Synced(w, open) && FreeOk(w, free) && Moved(g, w, done, input, output)
    ensures OpenAbove(w, open, |l.path|) && Within(t, w, l, open) && Get(w, l) == t.at[l]
  {
    var z := t.at[l];
    assert LocOk(t, l) && LocOk(u, l) && ZoneOk(u, l);
    assert KeptLoc(t, u, l) && KeptZone(t, u, open + {z}, z);
    TableInMemory(u, l, table, open + {z});
    w := u;
    if changed {
      TableWriteInvisible(u, l, Encode(table));
      PointersSmall(u, free, l, table);
      DecodeEncode(table);
      w := u.(disk := u.disk[z := Encode(table)]);
    }
    DecodesIff(w.disk[z], table);
    StillMoved(g, u, w, done, input, output);
    CloseSynced(u, w, open, l);
    CloseWithin(t, u, w, open, l);
    forall q ensures SmallOk(w, q) {
      assert SmallOk(u, q);
    }
  }

  // A change that no byte of the file shows.
  lemma StillMoved(g: Goal, t: Tree, u: Tree, done: nat, input: seq<byte>, output: seq<byte>)
    requires Moved(g, t, done, input, output) && (g.write || u == t)
    requires forall pos: nat :: pos < LIMIT ==> ByteAt(u, pos) == ByteAt(t, pos)
    ensures Moved(g, u, done, input, output)
  {
    assert MovedAt(g, t, done, input, output) && MovedAt(g, u, done, input, output);
  }

  lemma CloseWithin(t: Tree, u: Tree, w: Tree, open: set<nat>, l: Loc)
    requires WF(t) && WF(u) && IsLoc(l) && l in t.at && OpenAbove(t, open, |l.path|) && t.at[l] !in open
    requires WithinScan(t, u, In(l), POINTERS, open + {t.at[l]})
    requires w.at == u.at && w.tables == u.tables && w.roots == u.roots && w.place == u.place
    requires forall z :: z in u.disk && z != t.at[l] ==> z in w.disk && w.disk[z] == u.disk[z]
    ensures OpenAbove(w, open, |l.path|) && Within(t, w, l, open) && Get(w, l) == t.at[l]
  {
    assert LocOk(t, l) && LocOk(u, l);
    forall q | IsLoc(q) && (!Below(q, l) || q == l) ensures KeptPointer(t, w, q) {
      assert KeptPointer(t, u, q);
    }
    assert KeptPointer(t, w, l);
    forall q ensures KeptLoc(t, w, q) {
      assert KeptLoc(t, u, q);
    }
    forall z ensures KeptZone(t, w, open, z) {
      assert KeptZone(t, u, open + {t.at[l]}, z);
    }
    forall z | z in open ensures OpenOk(w, z, |l.path|) {
      assert OpenOk(t, z, |l.path|) && KeptZone(t, u, open + {t.at[l]}, z);
    }
  }

  lemma TableInMemory(u: Tree, l: Loc, table: seq<nat>, open: set<nat>)
    requires WF(u) && l in u.at && IsLoc(l) && Left(l) > 0 && Loaded(u, In(l), table, open) && |table| == POINTERS
    ensures u.at[l] in u.tables && u.tables[u.at[l]] == table
  {
    assert ZoneOk(u, l);
    forall i: nat | i < POINTERS ensures u.tables[u.at[l]][i] == table[i] {
      assert EntryIs(u, In(l), table, i) && EntryOf(In(l), i) == Child(l, i);
    }
  }

  lemma PointersSmall(u: Tree, free: seq<nat>, l: Loc, table: seq<nat>)
    requires WF(u) && FreeOk(u, free) && l in u.at && IsLoc(l) && Left(l) > 0 && u.at[l] in u.tables
             && u.tables[u.at[l]] == table
    ensures forall i :: 0 <= i < |table| ==> i < POINTERS ==> table[i] < 0x1_0000_0000
  {
    forall i: nat | i < |table| && i < POINTERS ensures table[i] < 0x1_0000_0000 {
      ChildStart(l, i);
      assert LocOk(u, Child(l, i)) && SmallOk(u, Child(l, i));
    }
  }

  lemma CloseSynced(u: Tree, w: Tree, open: set<nat>, l: Loc)
    requires WF(u) && l in u.at && Synced(u, open + {u.at[l]}) && u.at[l] in u.disk
    requires w.at == u.at && w.tables == u.tables && w.disk.Keys == u.disk.Keys
    requires forall z :: z in u.disk && z != u.at[l] ==> w.disk[z] == u.disk[z]
    requires u.at[l] in u.tables && TableBytes(w.disk[u.at[l]], u.tables[u.at[l]])
    ensures Synced(w, open)
  {
    forall q ensures SyncOk(w, open, q) {
      assert SyncOk(u, open + {u.at[l]}, q);
    }
  }

  // The cursor after a whole subtree.
  lemma SubtreeDone(g: Goal, l: Loc, p0: nat, done0: nat, p1: nat, done1: nat)
    requires WalkOk(g) && IsLoc(l) && Left(l) > 0 && g.walk.before(l, p0, done0) && g.offset < p0 + Size(Left(l))
    requires done0 <= done1
    ensures g.walk.between(In(l), POINTERS, p1, done1) ==> g.walk.past(l, p1, done1)
  {
    assert WalkDef(g.walk, g.offset, g.length, l, In(l), 0, p0, done0)
           && WalkDef(g.walk, g.offset, g.length, l, In(l), POINTERS, p1, done1);
    FirstStart(l);
  }

  lemma EntriesApart(ctx: Ctx, n: nat, i: nat, j: nat)
    requires ValidCtx(ctx, n) && i < n && j < n && i != j
    ensures !Below(EntryOf(ctx, j), EntryOf(ctx, i))
  {
    if ctx.In? {
      var a, b := Child(ctx.p, i), Child(ctx.p, j);
      assert a.path[|ctx.p.path|] == i && b.path[|ctx.p.path|] == j;
    }
  }

  lemma EntryCovered(ctx: Ctx, n: nat, i: nat, q: Loc)
    requires ValidCtx(ctx, n) && i < n && Below(q, EntryOf(ctx, i))
    ensures Covers(ctx, n, q)
  {
    if ctx.In? {
      var c := Child(ctx.p, i);
      assert ctx.p.path <= c.path;
      assert |q.path| > |ctx.p.path|;
    }
  }

  // The pointer at an entry is in memory, and so is the table that it is in.
  lemma EntryReady(t: Tree, ctx: Ctx, table: seq<nat>, i: nat, open: set<nat>)
    requires Loaded(t, ctx, table, open) && i < |table|
    ensures var l := EntryOf(ctx, i);
      && table[i] == Get(t, l) && OpenAbove(t, open, |l.path|)
      && (l.path != [] ==> Parent(l) in t.at && t.at[Parent(l)] in open)
  {
    assert EntryIs(t, ctx, table, i);
    if ctx.In? {
      assert Parent(EntryOf(ctx, i)) == ctx.p;
    }
  }

  // The scan began with the tree `was` and `table`; now they are `t` and `table'`.
  ghost predicate InMemory(was: Tree, t: Tree, ctx: Ctx, table: seq<nat>, table': seq<nat>, changed: bool,
                           open: set<nat>, write: bool) {
    && ValidCtx(ctx, |table|) && |table'| == |table| && Loaded(t, ctx, table', open)
    && WithinScan(was, t, ctx, |table|, open) && (changed || table' == table) && (changed ==> write)
  }

  lemma EntryDone(was: Tree, t: Tree, u: Tree, ctx: Ctx, table: seq<nat>, table0: seq<nat>, changed: bool, i: nat,
                  v: nat, open: set<nat>, write: bool)
    requires InMemory(was, t, ctx, table, table0, changed, open, write) && i < |table|
    requires Within(t, u, EntryOf(ctx, i), open) && v == Get(u, EntryOf(ctx, i)) && (write || v == table0[i])
    requires OpenAbove(u, open, |EntryOf(ctx, i).path|)
    ensures InMemory(was, u, ctx, table, table0[i := v], changed || v != table0[i], open, write)
  {
    EntryVisited(was, t, u, ctx, |table|, i, open);
    EntryLoaded(t, u, ctx, table0, i, v, open);
  }

  // What visiting one entry means for the scan as a whole.
  lemma EntryVisited(t: Tree, u: Tree, v: Tree, ctx: Ctx, n: nat, i: nat, open: set<nat>)
    requires ValidCtx(ctx, n) && i < n && WithinScan(t, u, ctx, n, open) && Within(u, v, EntryOf(ctx, i), open)
    ensures WithinScan(t, v, ctx, n, open)
  {
    forall q | IsLoc(q) && !Covers(ctx, n, q) ensures KeptPointer(t, v, q) {
      if Below(q, EntryOf(ctx, i)) {
        EntryCovered(ctx, n, i, q);
      }
      assert KeptPointer(t, u, q) && KeptPointer(u, v, q);
    }
    forall q ensures KeptLoc(t, v, q) {
      assert KeptLoc(t, u, q) && KeptLoc(u, v, q);
    }
    forall z ensures KeptZone(t, v, open, z) {
      assert KeptZone(t, u, open, z) && KeptZone(u, v, open, z);
    }
  }

  lemma EntryStays(u: Tree, v: Tree, ctx: Ctx, table: seq<nat>, i: nat, x: nat, j: nat, open: set<nat>)
    requires ValidCtx(ctx, |table|) && i < |table| && Within(u, v, EntryOf(ctx, i), open)
    requires EntryIs(u, ctx, table, j) && x == Get(v, EntryOf(ctx, i))
    ensures EntryIs(v, ctx, table[i := x], j)
  {
    if j < |table| && j != i {
      EntryDepth(ctx, |table|, j);
      EntriesApart(ctx, |table|, i, j);
      assert KeptPointer(u, v, EntryOf(ctx, j));
    }
  }

  lemma EntryLoaded(u: Tree, v: Tree, ctx: Ctx, table: seq<nat>, i: nat, x: nat, open: set<nat>)
    requires ValidCtx(ctx, |table|) && i < |table| && Within(u, v, EntryOf(ctx, i), open) && Loaded(u, ctx, table, open)
    requires x == Get(v, EntryOf(ctx, i)) && OpenAbove(v, open, if ctx.In? then |ctx.p.path| + 1 else 0)
    ensures Loaded(v, ctx, table[i := x], open)
  {
    var table' := table[i := x];
    forall j: nat ensures EntryIs(v, ctx, table', j) {
      assert EntryIs(u, ctx, table, j);
      EntryStays(u, v, ctx, table, i, x, j, open);
    }
    if ctx.In? {
      assert KeptLoc(u, v, ctx.p);
    }
  }

  // After the place `l` has been visited: all of its bytes are done, and the cursor has not been moved back.
  ghost predicate PastEntry(offset: nat, length: nat, l: Loc, position: nat, done: nat)
    requires IsLoc(l)
  {
    && 0 < done < length && offset + done == Start(l) + Size(Left(l))
    && Start(l) <= position && Aligned(position)
  }

  lemma WithinTrans(t: Tree, u: Tree, v: Tree, l: Loc, open: set<nat>)
    requires Within(t, u, l, open) && Within(u, v, l, open)
    ensures Within(t, v, l, open)
  {
    forall q | IsLoc(q) && !Below(q, l) ensures KeptPointer(t, v, q) {
      assert KeptPointer(t, u, q) && KeptPointer(u, v, q);
    }
    forall q ensures KeptLoc(t, v, q) {
      assert KeptLoc(t, u, q) && KeptLoc(u, v, q);
    }
    forall z ensures KeptZone(t, v, open, z) {
      assert KeptZone(t, u, open, z) && KeptZone(u, v, open, z);
    }
  }

  lemma StartAligned(l: Loc)
    requires IsLoc(l)
    ensures Start(l) % BLOCK == 0
  {
  }

  // Where in its block the next byte is.
  lemma InBlock(offset: nat, start: nat, position: nat, done: nat)
    requires start % BLOCK == 0
    requires if done == 0 then position == start <= offset < start + BLOCK
             else offset + done == start <= position && position % BLOCK == 0 && offset < position + BLOCK
    ensures var fileOffset := if offset > position then offset else position;
      fileOffset % BLOCK == offset + done - start
  {
  }

  // Which bytes of the file the transfer at `l` is about.
  lemma ExactPiece(g: Goal, l: Loc, position: nat, done: nat)
    requires IsLoc(l) && Cursor(g.offset, g.length, Start(l), position, done) && g.offset < position + Size(Left(l))
    ensures var fileOffset := if g.offset > position then g.offset else position;
      var n := Min(g.length - done, position + Size(Left(l)) - fileOffset);
      && n > 0 && g.offset + done == Start(l) + (fileOffset - position)
      && Start(l) <= g.offset + done && g.offset + done + n <= Start(l) + Size(Left(l))
      && (n == g.length - done || g.offset + done + n == Start(l) + Size(Left(l)))
      && (Left(l) == 0 ==> fileOffset % BLOCK == g.offset + done - Start(l) && fileOffset % BLOCK + n <= BLOCK)
      && (n == g.length - done || PastEntry(g.offset, g.length, l, position, done + n))
  {
    StartAligned(l);
    AlignedIs(position);
    if Left(l) == 0 {
      InBlock(g.offset, Start(l), position, done);
    }
  }

  // The same for the walk.
  lemma PieceHere(g: Goal, l: Loc, position: nat, done: nat)
    requires WalkOk(g) && IsLoc(l) && g.walk.before(l, position, done) && g.offset < position + Size(Left(l))
    requires done <= g.length
    ensures var fileOffset := if g.offset > position then g.offset else position;
      var n := Min(g.length - done, position + Size(Left(l)) - fileOffset);
      && n > 0 && Start(l) <= g.offset + done && g.offset + done + n <= Start(l) + Size(Left(l))
      && (Left(l) == 0 ==> fileOffset % BLOCK == g.offset + done - Start(l) && fileOffset % BLOCK + n <= BLOCK)
      && (n == g.length - done || g.walk.past(l, position, done + n))
  {
    assert WalkDef(g.walk, g.offset, g.length, l, In(l), 0, position, done);
    ExactPiece(g, l, position, done);
    var fileOffset := if g.offset > position then g.offset else position;
    var n := Min(g.length - done, position + Size(Left(l)) - fileOffset);
    assert WalkDef(g.walk, g.offset, g.length, l, In(l), 0, position, done + n);
  }

  // The place that is visited is on the way to the next byte of the request.
  lemma NextByteBelow(g: Goal, l: Loc, position: nat, done: nat)
    requires WalkOk(g) && IsLoc(l) && g.walk.before(l, position, done) && g.offset < position + Size(Left(l))
    requires g.offset + g.length <= LIMIT
    ensures done < g.length && g.offset + done < LIMIT && Below(LeafOf(g.offset + done), l)
  {
    assert WalkDef(g.walk, g.offset, g.length, l, In(l), 0, position, done);
    ExactPiece(g, l, position, done);
    InRegion(l, g.offset + done);
  }

  // The bytes of one data zone need no other zone.
  lemma PieceCounted(g: Goal, t: Tree, zones: nat, done: nat, n: nat, l: Loc)
    requires CountedFor(g, t.at, zones, done) && g.write && done + n <= g.length && g.offset + g.length <= LIMIT
             && WF(t)
    requires IsLoc(l) && Left(l) == 0 && l in t.at
    requires Start(l) <= g.offset + done && g.offset + done + n <= Start(l) + BLOCK
    ensures CountedFor(g, t.at, zones, done + n)
  {
    forall pos: nat | g.offset + done <= pos < g.offset + done + n ensures LeafOf(pos) == l {
      InRegion(l, pos);
    }
    SpaceWrite(g.space, t, zones, done, n, l);
  }

  // A hole reads as zeros.
  lemma HoleBytes(t: Tree, l: Loc)
    requires WF(t) && IsLoc(l) && l !in t.at
    ensures forall pos: nat :: Start(l) <= pos < Start(l) + Size(Left(l)) && pos < LIMIT ==> ByteAt(t, pos) == 0
  {
    forall pos: nat | Start(l) <= pos < Start(l) + Size(Left(l)) && pos < LIMIT ensures ByteAt(t, pos) == 0 {
      InRegion(l, pos);
      BelowHole(t, l, LeafOf(pos));
      ZoneForIsAt(t, LeafOf(pos));
    }
  }

  lemma DataBytes(t: Tree, l: Loc)
    requires WF(t) && IsLoc(l) && Left(l) == 0 && l in t.at
    ensures t.at[l] in t.disk
    ensures forall pos: nat :: Start(l) <= pos < Start(l) + BLOCK && pos < LIMIT ==>
            ByteAt(t, pos) == t.disk[t.at[l]][pos - Start(l)]
  {
    assert ZoneOk(t, l) && LocOk(t, l);
    forall pos: nat | Start(l) <= pos < Start(l) + BLOCK && pos < LIMIT
      ensures ByteAt(t, pos) == t.disk[t.at[l]][pos - Start(l)]
    {
      InRegion(l, pos);
      ZoneForIsAt(t, l);
    }
  }

  lemma HoleStep(g: Goal, t: Tree, l: Loc, done: nat, n: nat, input: seq<byte>, output: seq<byte>)
    requires WF(t) && Moved(g, t, done, input, output) && !g.write && done + n <= g.length
    requires IsLoc(l) && l !in t.at
    requires Start(l) <= g.offset + done && g.offset + done + n <= Start(l) + Size(Left(l))
    ensures Moved(g, t, done + n, input, output + seq(n, _ => 0))
  {
    HoleBytes(t, l);
    var o := output + seq(n, _ => 0);
    assert MovedAt(g, t, done, input, output) && MovedAt(g, t, done + n, input, o);
    forall i: nat | i < done + n ensures o[i] == ByteAt(g.was, g.offset + i) {
      assert ByteAt(t, g.offset + i) == ByteAt(g.was, g.offset + i);
    }
  }

  lemma DataStep(g: Goal, t: Tree, l: Loc, done: nat, off: nat, n: nat, input: seq<byte>, output: seq<byte>)
    requires WF(t) && Moved(g, t, done, input, output) && !g.write && done + n <= g.length
    requires IsLoc(l) && Left(l) == 0 && l in t.at && off + n <= BLOCK && Start(l) + off == g.offset + done
    ensures t.at[l] in t.disk && Moved(g, t, done + n, input, output + t.disk[t.at[l]][off..off + n])
  {
    DataBytes(t, l);
    var o := output + t.disk[t.at[l]][off..off + n];
    assert MovedAt(g, t, done, input, output) && MovedAt(g, t, done + n, input, o);
    forall i: nat | i < done + n ensures o[i] == ByteAt(g.was, g.offset + i) {
      assert ByteAt(t, g.offset + i) == ByteAt(g.was, g.offset + i);
    }
  }

  lemma WriteStep(g: Goal, t: Tree, free: seq<nat>, open: set<nat>, l: Loc, done: nat, off: nat, n: nat,
                  input: seq<byte>, output: seq<byte>) returns (u: Tree)
    requires WF(t) && FreeOk(t, free) && Synced(t, open) && OpenAbove(t, open, |l.path|)
    requires Moved(g, t, done, input, output) && g.write && done + n <= g.length && CountedFor(g, t.at, |free|, done)
    requires IsLoc(l) && Left(l) == 0 && l in t.at && off + n <= BLOCK && Start(l) + off == g.offset + done
    ensures t.at[l] in t.disk && n <= |input| && u.disk == t.disk[t.at[l] := Splice(t.disk[t.at[l]], off, input[..n])]
    ensures WF(u) && FreeOk(u, free) && Synced(u, open) && OpenAbove(u, open, |l.path|)
    ensures Moved(g, u, done + n, input[n..], output) && Within(t, u, l, open) && Get(u, l) == Get(t, l)
    ensures CountedFor(g, u.at, |free|, done + n)
  {
    assert ZoneOk(t, l) && MovedAt(g, t, done, input, output);
    PutBytesWF(t, l, off, input[..n]);
    u := PutBytes(t, l, off, input[..n]);
    assert MovedAt(g, u, done + n, input[n..], output);
    PieceCounted(g, t, |free|, done, n, l);
    WriteKeeps(t, u, free, open, l, off, input[..n]);
  }

  // What writing a data zone keeps.
  lemma WriteKeeps(t: Tree, u: Tree, free: seq<nat>, open: set<nat>, l: Loc, off: nat, b: seq<byte>)
    requires WF(t) && FreeOk(t, free) && Synced(t, open) && OpenAbove(t, open, |l.path|)
    requires IsLoc(l) && Left(l) == 0 && l in t.at && t.at[l] in t.disk && off + |b| <= BLOCK
             && u == PutBytes(t, l, off, b)
    ensures FreeOk(u, free) && Synced(u, open) && OpenAbove(u, open, |l.path|) && Within(t, u, l, open)
            && Get(u, l) == Get(t, l)
  {
    assert ZoneOk(t, l);
    assert t.at[l] in open ==> OpenOk(t, t.at[l], |l.path|);
    assert t.at[l] !in open;
    forall q ensures SyncOk(u, open, q) && SmallOk(u, q) && KeptPointer(t, u, q) {
      assert SyncOk(t, open, q) && ZoneOk(t, q) && SmallOk(t, q);
    }
    forall y | y in open ensures OpenOk(u, y, |l.path|) {
      assert OpenOk(t, y, |l.path|);
    }
    forall y ensures KeptZone(t, u, open, y) {
      assert y in open ==> OpenOk(t, y, |l.path|);
    }
  }

  // What filling a hole keeps.
  lemma FillStep(g: Goal, t: Tree, free: seq<nat>, open: set<nat>, l: Loc, done: nat, input: seq<byte>,
                 output: seq<byte>)
    returns (u: Tree)
    requires WF(t) && FreeOk(t, free) && Synced(t, open) && free != [] && Hole(t, l, open)
    requires OpenAbove(t, open, |l.path|) && Moved(g, t, done, input, output) && g.write
    requires CountedFor(g, t.at, |free|, done) && done < g.length && Below(LeafOf(g.offset + done), l)
    ensures u.disk == t.disk[free[0] := ZeroZone()]
    ensures WF(u) && FreeOk(u, free[1..]) && Synced(u, open) && OpenAbove(u, open, |l.path|)
    ensures Moved(g, u, done, input, output) && Within(t, u, l, open) && Get(u, l) == free[0]
    ensures CountedFor(g, u.at, |free[1..]|, done)
  {
    var z := free[0];
    FillWF(t, l, z);
    u := Fill(t, l, z);
    assert MovedAt(g, t, done, input, output) && MovedAt(g, u, done, input, output);
    SpaceFill(g.space, t.at, |free|, done, l, z, u.at, |free[1..]|);
    forall pos: nat ensures ByteAt(u, pos) == ByteAt(t, pos) {
      FillInvisible(t, l, z, pos);
    }
    FillSynced(t, l, z, open);
    FillWithin(t, l, z, open);
    GetAfterFill(t, l, z, l);
    FillFree(t, free, l);
  }

  // A hole whose pointer is held in memory.
  ghost predicate Hole(t: Tree, l: Loc, open: set<nat>) {
    IsLoc(l) && l !in t.at && (l.path != [] ==> Parent(l) in t.at && t.at[Parent(l)] in open)
  }

  lemma FillFree(t: Tree, free: seq<nat>, l: Loc)
    requires WF(t) && FreeOk(t, free) && free != [] && IsLoc(l) && l !in t.at && (l.path == [] || Parent(l) in t.at)
    ensures l.path != [] ==> t.at[Parent(l)] in t.tables && Last(l) < |t.tables[t.at[Parent(l)]]|
    ensures FreeOk(Fill(t, l, free[0]), free[1..])
  {
    GetAfterFill(t, l, free[0], l);
    forall q ensures SmallOk(Fill(t, l, free[0]), q) {
      assert SmallOk(t, q);
    }
  }

  lemma FillSynced(t: Tree, l: Loc, z: nat, open: set<nat>)
    requires WF(t) && Synced(t, open) && Hole(t, l, open) && z !in t.place && z != 0
    ensures l.path != [] ==> t.at[Parent(l)] in t.tables && Last(l) < |t.tables[t.at[Parent(l)]]|
    ensures Synced(Fill(t, l, z), open)
  {
    GetAfterFill(t, l, z, l);
    DecodeZero();
    var u := Fill(t, l, z);
    forall q ensures SyncOk(u, open, q) {
      assert ZoneOk(t, q) && SyncOk(t, open, q);
    }
  }

  lemma FillWithin(t: Tree, l: Loc, z: nat, open: set<nat>)
    requires WF(t) && Hole(t, l, open) && z !in t.place && z != 0 && OpenAbove(t, open, |l.path|)
    ensures l.path != [] ==> t.at[Parent(l)] in t.tables && Last(l) < |t.tables[t.at[Parent(l)]]|
    ensures Within(t, Fill(t, l, z), l, open) && OpenAbove(Fill(t, l, z), open, |l.path|)
  {
    GetAfterFill(t, l, z, l);
    var u := Fill(t, l, z);
    forall q | IsLoc(q) && !Below(q, l) ensures KeptPointer(t, u, q) {
      GetAfterFill(t, l, z, q);
      assert q.path != [] && Parent(q) == l ==> l.path <= q.path;
    }
    forall y | y in open ensures OpenOk(u, y, |l.path|) {
      assert OpenOk(t, y, |l.path|);
    }
    forall y ensures KeptZone(t, u, open, y) {
      assert y in open ==> OpenOk(t, y, |l.path|);
    }
  }
}
