// The zone tree of a Minix file (kernel/src/files/minix/node.c) and the flat sparse file that it stands for.
module MinixSpec {
  import opened Basics

  const BLOCK: nat := 1024
  const POINTERS: nat := 256
  // Seven direct zones, one single- and one double-indirect zone.
  const ROOTS: nat := 9
  // What they can hold: (7 + 256 + 256 * 256) * 1024
  const LIMIT: nat := 0x40_41C00

  type Zone = z: seq<byte> | |z| == BLOCK witness seq(BLOCK, _ => 0)

  function ZeroZone(): (z: Zone)
    ensures forall i :: 0 <= i < BLOCK ==> z[i] == 0
  {
    seq(BLOCK, _ => 0)
  }

  function NoPointers(): (t: seq<nat>)
    ensures |t| == POINTERS && forall i :: 0 <= i < POINTERS ==> t[i] == 0
  {
    seq(POINTERS, _ => 0)
  }

  // A place in the tree: one of the zones of the node, and the indices followed through the tables below it.
  datatype Loc = Loc(root: nat, path: seq<nat>)

  function Depth(root: nat): nat {
    if root < 7 then 0 else if root == 7 then 1 else 2
  }

  predicate IsLoc(l: Loc) {
    l.root < ROOTS && |l.path| <= Depth(l.root) && forall i :: 0 <= i < |l.path| ==> l.path[i] < POINTERS
  }

  // How many tables there are on the way from here to the data.
  function Left(l: Loc): nat
    requires IsLoc(l)
  {
    Depth(l.root) - |l.path|
  }

  function Size(depth: nat): nat
    requires depth <= 2
  {
    if depth == 0 then 0x400 else if depth == 1 then 0x4_0000 else 0x400_0000
  }

  function Parent(l: Loc): Loc
    requires l.path != []
  {
    Loc(l.root, l.path[..|l.path| - 1])
  }

  function Last(l: Loc): nat
    requires l.path != []
  {
    l.path[|l.path| - 1]
  }

  function Child(l: Loc, i: nat): (c: Loc)
    ensures c.path != [] && Parent(c) == l && Last(c) == i
  {
    var c := Loc(l.root, l.path + [i]);
    assert c.path[..|c.path| - 1] == l.path;
    c
  }

  // The first byte of the file that lies below a place.
  function Start(l: Loc): nat
    requires IsLoc(l)
  {
    if l.root < 7 then l.root * 0x400
    else if l.root == 7 then 0x1C00 + (if l.path == [] then 0 else l.path[0] * 0x400)
    else 0x4_1C00 + (if l.path == [] then 0 else l.path[0] * 0x4_0000 + if |l.path| == 1 then 0 else l.path[1] * 0x400)
  }

  // The place of the data zone for byte `pos` of the file.
  function LeafOf(pos: nat): (l: Loc)
    requires pos < LIMIT
    ensures IsLoc(l) && Left(l) == 0
  {
    var b := pos / BLOCK;
    if b < 7 then Loc(b, [])
    else if b < 263 then Loc(7, [b - 7])
    else Loc(8, [(b - 263) / 256, (b - 263) % 256])
  }

  predicate Below(l: Loc, q: Loc) {
    l.root == q.root && q.path <= l.path
  }

  // A byte lies below a place exactly when it is in the range of the place.
  lemma InRegion(q: Loc, pos: nat)
    requires IsLoc(q) && pos < LIMIT
    ensures Below(LeafOf(pos), q) <==> Start(q) <= pos < Start(q) + Size(Left(q))
    ensures Left(q) == 0 && Below(LeafOf(pos), q) ==> LeafOf(pos) == q && pos - Start(q) == pos % BLOCK
  {
    var l := LeafOf(pos);
    if q.root == 8 && l.root == 8 {
      assert |q.path| == 0 || |q.path| == 1 || |q.path| == 2;
      if |q.path| == 1 {
        assert q.path <= l.path <==> q.path[0] == l.path[0];
      } else if |q.path| == 2 {
        assert q.path <= l.path <==> q.path[0] == l.path[0] && q.path[1] == l.path[1];
        assert q.path <= l.path ==> q.path == l.path;
      }
    } else if q.root == 7 && l.root == 7 {
      if |q.path| == 1 {
        assert q.path <= l.path <==> q.path[0] == l.path[0];
        assert q.path <= l.path ==> q.path == l.path;
      }
    }
  }

  // ---- The tree

  // The zones of the node, the pointers in the table zones, and the contents of all zones. `at` and `place` say
  // which zone lies where.
  datatype Tree = Tree(roots: seq<nat>, tables: map<nat, seq<nat>>, at: map<Loc, nat>, place: map<nat, Loc>,
      disk: map<nat, Zone>)

  // The pointer stored at a place; 0 is a hole.
  function Get(t: Tree, l: Loc): nat {
    if l.path == [] then (if l.root < |t.roots| then t.roots[l.root] else 0)
    else if Parent(l) in t.at && t.at[Parent(l)] in t.tables && Last(l) < |t.tables[t.at[Parent(l)]]|
    then t.tables[t.at[Parent(l)]][Last(l)] else 0
  }

  ghost predicate LocOk(t: Tree, l: Loc) {
    && (l in t.at ==> IsLoc(l))
    && (IsLoc(l) ==> (l in t.at <==> Get(t, l) != 0) && (l in t.at ==> t.at[l] == Get(t, l)))
  }

  // No zone is used twice.
  ghost predicate ZoneOk(t: Tree, l: Loc) {
    l in t.at ==>
      && t.at[l] in t.place && t.place[t.at[l]] == l && t.at[l] in t.disk
      && IsLoc(l) && (Left(l) > 0 ==> t.at[l] in t.tables && |t.tables[t.at[l]]| == POINTERS)
  }

  ghost predicate WF(t: Tree) {
    && |t.roots| >= ROOTS
    && (forall l {:trigger LocOk(t, l)} :: LocOk(t, l))
    && (forall l {:trigger ZoneOk(t, l)} :: ZoneOk(t, l))
    && (forall z {:trigger PlaceOk(t, z)} :: PlaceOk(t, z))
  }

  ghost predicate PlaceOk(t: Tree, z: nat) {
    z in t.place ==> t.place[z] in t.at && t.at[t.place[z]] == z
  }

  // ---- The flat file: following the pointers from the node

  function ZoneFor(t: Tree, l: Loc): nat
    decreases |l.path|
  {
    if l.path == [] then (if l.root < |t.roots| then t.roots[l.root] else 0)
    else
      var p := ZoneFor(t, Parent(l));
      if p != 0 && p in t.tables && Last(l) < |t.tables[p]| then t.tables[p][Last(l)] else 0
  }

  function ByteAt(t: Tree, pos: nat): byte {
    if pos >= LIMIT then 0
    else
      var z := ZoneFor(t, LeafOf(pos));
      if z != 0 && z in t.disk then t.disk[z][pos % BLOCK] else 0
  }

  lemma {:induction false} ZoneForIsAt(t: Tree, l: Loc)
    requires WF(t) && IsLoc(l)
    ensures ZoneFor(t, l) == if l in t.at then t.at[l] else 0
    decreases |l.path|
  {
    assert LocOk(t, l);
    if l.path != [] {
      ZoneForIsAt(t, Parent(l));
      assert LocOk(t, Parent(l)) && ZoneOk(t, Parent(l));
    }
  }

  // A hole has nothing below it.
  lemma {:induction false} BelowHole(t: Tree, q: Loc, l: Loc)
    requires WF(t) && IsLoc(q) && q !in t.at && Below(l, q)
    ensures l !in t.at
    decreases |l.path|
  {
    assert LocOk(t, l);
    if l != q {
      assert Below(Parent(l), q);
      BelowHole(t, q, Parent(l));
    }
  }

  // ---- The changes that a write makes

  // Writing data into the zone at `l`.
  function PutBytes(t: Tree, l: Loc, off: nat, b: seq<byte>): Tree
    requires l in t.at && t.at[l] in t.disk && off + |b| <= BLOCK
  {
    t.(disk := t.disk[t.at[l] := Splice(t.disk[t.at[l]], off, b)])
  }

  lemma PutBytesWF(t: Tree, l: Loc, off: nat, b: seq<byte>)
    requires WF(t) && l in t.at && IsLoc(l) && Left(l) == 0 && t.at[l] in t.disk && off + |b| <= BLOCK
    ensures WF(PutBytes(t, l, off, b))
    ensures forall pos: nat :: pos < LIMIT ==>
              ByteAt(PutBytes(t, l, off, b), pos)
              == if Start(l) + off <= pos < Start(l) + off + |b| then b[pos - Start(l) - off] else ByteAt(t, pos)
  {
    var u := PutBytes(t, l, off, b);
    forall q ensures LocOk(u, q) && ZoneOk(u, q) {
      assert LocOk(t, q) && ZoneOk(t, q);
    }
    forall y ensures PlaceOk(u, y) {
      assert PlaceOk(t, y);
    }
    forall pos: nat | pos < LIMIT
      ensures ByteAt(u, pos) == if Start(l) + off <= pos < Start(l) + off + |b| then b[pos - Start(l) - off]
              else ByteAt(t, pos)
    {
      var q := LeafOf(pos);
      ZoneForIsAt(t, q);
      ZoneForIsAt(u, q);
      InRegion(l, pos);
      assert ZoneOk(t, q) && ZoneOk(t, l) && LocOk(t, q) && LocOk(t, l);
    }
  }

  // A new zeroed zone `z` at the hole `l`.
  function Fill(t: Tree, l: Loc, z: nat): Tree
    requires IsLoc(l) && (l.path == [] ==> l.root < |t.roots|)
    requires l.path != [] ==> Parent(l) in t.at && t.at[Parent(l)] in t.tables && Last(l) < |t.tables[t.at[Parent(l)]]|
  {
    var u := t.(at := t.at[l := z], place := t.place[z := l], disk := t.disk[z := ZeroZone()]);
    var v := if l.path == [] then u.(roots := t.roots[l.root := z])
             else
               var table: seq<nat> := t.tables[t.at[Parent(l)]];
               u.(tables := t.tables[t.at[Parent(l)] := table[Last(l) := z]]);
    if Left(l) > 0 then v.(tables := v.tables[z := NoPointers()]) else v
  }

  // Where the pointer at `l` is stored.
  lemma ParentTable(t: Tree, l: Loc)
    requires WF(t) && IsLoc(l) && l.path != [] && Parent(l) in t.at
    ensures t.at[Parent(l)] in t.tables && |t.tables[t.at[Parent(l)]]| == POINTERS && Last(l) < POINTERS
    ensures t.at[Parent(l)] in t.place && t.place[t.at[Parent(l)]] == Parent(l)
  {
    assert ZoneOk(t, Parent(l)) && LocOk(t, Parent(l));
  }

  // One table after a zone has been put into a hole.
  lemma TableAfterFill(t: Tree, l: Loc, z: nat, q: Loc)
    requires WF(t) && IsLoc(l) && l !in t.at && z !in t.place && z != 0
    requires l.path == [] || Parent(l) in t.at
    requires IsLoc(q) && q.path != [] && Parent(q) in t.at
    ensures l.path != [] ==> t.at[Parent(l)] in t.tables && Last(l) < |t.tables[t.at[Parent(l)]]|
    ensures t.at[Parent(q)] in t.tables && t.at[Parent(q)] in Fill(t, l, z).tables
    ensures Fill(t, l, z).tables[t.at[Parent(q)]]
         == if l.path != [] && Parent(q) == Parent(l) then t.tables[t.at[Parent(l)]][Last(l) := z]
            else t.tables[t.at[Parent(q)]]
  {
    ParentTable(t, q);
    if l.path != [] {
      ParentTable(t, l);
    }
  }

  lemma GetAfterFill(t: Tree, l: Loc, z: nat, q: Loc)
    requires WF(t) && IsLoc(l) && l !in t.at && z !in t.place && z != 0
    requires l.path == [] || Parent(l) in t.at
    ensures l.path != [] ==> t.at[Parent(l)] in t.tables && Last(l) < |t.tables[t.at[Parent(l)]]|
    ensures IsLoc(q) ==>
              Get(Fill(t, l, z), q)
              == if q == l then z else if q.path != [] && Parent(q) == l then 0 else Get(t, q)
  {
    if l.path != [] {
      ParentTable(t, l);
      Rejoin(l);
    }
    if IsLoc(q) && q.path != [] {
      EntryAfterFill(t, l, z, q);
    }
  }

  // An entry of a table.
  lemma EntryAfterFill(t: Tree, l: Loc, z: nat, q: Loc)
    requires WF(t) && IsLoc(l) && l !in t.at && z !in t.place && z != 0 && IsLoc(q) && q.path != []
    requires l.path == [] || Parent(l) in t.at
    ensures l.path != [] ==> t.at[Parent(l)] in t.tables && Last(l) < |t.tables[t.at[Parent(l)]]|
    ensures Get(Fill(t, l, z), q) == if q == l then z else if Parent(q) == l then 0 else Get(t, q)
  {
    if l.path != [] {
      ParentTable(t, l);
    }
    if Parent(q) in t.at {
      OldEntry(t, l, z, q);
    } else if Parent(q) == l {
      NewEntry(t, l, z, q);
    }
  }

  // In a table that was there before, and in the new one.
  lemma OldEntry(t: Tree, l: Loc, z: nat, q: Loc)
    requires WF(t) && IsLoc(l) && l !in t.at && z !in t.place && z != 0 && IsLoc(q) && q.path != []
    requires (l.path == [] || Parent(l) in t.at) && Parent(q) in t.at
    ensures l.path != [] ==> t.at[Parent(l)] in t.tables && Last(l) < |t.tables[t.at[Parent(l)]]|
    ensures Get(Fill(t, l, z), q) == if q == l then z else Get(t, q)
  {
    TableAfterFill(t, l, z, q);
    ParentTable(t, q);
    GetIn(Fill(t, l, z), q, t.at[Parent(q)]);
    GetIn(t, q, t.at[Parent(q)]);
    if l.path != [] && Parent(q) == Parent(l) {
      SameEntry(q, l);
    }
  }

  lemma GetIn(t: Tree, q: Loc, a: nat)
    requires q.path != [] && Parent(q) in t.at && t.at[Parent(q)] == a && a in t.tables && Last(q) < |t.tables[a]|
    ensures Get(t, q) == t.tables[a][Last(q)]
  {
  }

  lemma SameEntry(q: Loc, l: Loc)
    requires q.path != [] && l.path != [] && Parent(q) == Parent(l)
    ensures q == l <==> Last(q) == Last(l)
  {
    Rejoin(q);
    Rejoin(l);
  }

  lemma NewEntry(t: Tree, l: Loc, z: nat, q: Loc)
    requires WF(t) && IsLoc(l) && l !in t.at && z !in t.place && z != 0 && IsLoc(q) && q.path != []
    requires (l.path == [] || Parent(l) in t.at) && Parent(q) == l
    ensures l.path != [] ==> t.at[Parent(l)] in t.tables && Last(l) < |t.tables[t.at[Parent(l)]]|
    ensures Get(Fill(t, l, z), q) == 0
  {
    if l.path != [] {
      ParentTable(t, l);
    }
    assert Left(l) > 0;
  }

  lemma Rejoin(l: Loc)
    requires l.path != []
    ensures l == Child(Parent(l), Last(l))
  {
    assert l.path == l.path[..|l.path| - 1] + [Last(l)];
  }

  lemma FillWF(t: Tree, l: Loc, z: nat)
    requires WF(t) && IsLoc(l) && l !in t.at && z !in t.place && z != 0
    requires l.path == [] || Parent(l) in t.at
    ensures l.path != [] ==> t.at[Parent(l)] in t.tables && Last(l) < |t.tables[t.at[Parent(l)]]|
    ensures WF(Fill(t, l, z))
  {
    GetAfterFill(t, l, z, l);
    var u := Fill(t, l, z);
    forall q ensures LocOk(u, q) && ZoneOk(u, q) {
      GetAfterFill(t, l, z, q);
      assert LocOk(t, q) && ZoneOk(t, q);
      if q.path != [] && Parent(q) == l {
        BelowHole(t, l, q);
      }
    }
    forall y ensures PlaceOk(u, y) {
      assert PlaceOk(t, y);
    }
  }

  // It does not change the file, since a hole reads as zeros.
  lemma FillInvisible(t: Tree, l: Loc, z: nat, pos: nat)
    requires WF(t) && IsLoc(l) && l !in t.at && z !in t.place && z != 0
    requires l.path == [] || Parent(l) in t.at
    ensures l.path != [] ==> t.at[Parent(l)] in t.tables && Last(l) < |t.tables[t.at[Parent(l)]]|
    ensures ByteAt(Fill(t, l, z), pos) == ByteAt(t, pos)
  {
    FillWF(t, l, z);
    if pos < LIMIT {
      var q := LeafOf(pos);
      ZoneForIsAt(t, q);
      ZoneForIsAt(Fill(t, l, z), q);
      assert ZoneOk(t, q) && LocOk(t, q);
    }
  }

  // Rewriting a table zone does not change the file either.
  lemma TableWriteInvisible(t: Tree, l: Loc, content: Zone)
    requires WF(t) && l in t.at && IsLoc(l) && Left(l) > 0
    ensures var u := t.(disk := t.disk[t.at[l] := content]);
      WF(u) && forall pos: nat :: ByteAt(u, pos) == ByteAt(t, pos)
  {
    var u := t.(disk := t.disk[t.at[l] := content]);
    forall q ensures LocOk(u, q) && ZoneOk(u, q) {
      assert LocOk(t, q) && ZoneOk(t, q);
    }
    forall y ensures PlaceOk(u, y) {
      assert PlaceOk(t, y);
    }
    forall pos: nat ensures ByteAt(u, pos) == ByteAt(t, pos) {
      if pos < LIMIT {
        var q := LeafOf(pos);
        ZoneForIsAt(t, q);
        ZoneForIsAt(u, q);
        assert ZoneOk(t, q) && ZoneOk(t, l);
      }
    }
  }

  // ---- Table zones on disk: 256 little-endian words

  // Pointer `i` takes four bytes of the zone, the least significant one first.
  ghost predicate PointerBytes(z: Zone, i: nat, w: nat)
    requires i < POINTERS
  {
    && z[4 * i] as nat == w % 0x100
    && z[4 * i + 1] as nat == w / 0x100 % 0x100
    && z[4 * i + 2] as nat == w / 0x1_0000 % 0x100
    && z[4 * i + 3] as nat == w / 0x100_0000
  }

  // The zone holds the table and nothing else.
  ghost predicate TableBytes(z: Zone, t: seq<nat>) {
    |t| == POINTERS && forall i: nat {:trigger PointerBytes(z, i, t[i])} :: i < POINTERS ==> PointerBytes(z, i, t[i])
  }

  function Word(z: Zone, i: nat): nat
    requires i < POINTERS
  {
    z[4 * i] as nat + 0x100 * (z[4 * i + 1] as nat) + 0x1_0000 * (z[4 * i + 2] as nat)
        + 0x100_0000 * (z[4 * i + 3] as nat)
  }

  function Decode(z: Zone): (t: seq<nat>)
    ensures |t| == POINTERS
  {
    seq(POINTERS, i requires 0 <= i < POINTERS => Word(z, i))
  }

  function ByteOf(w: nat, k: nat): byte
    requires k < 4
  {
    if k == 0 then (w % 0x100) as byte
    else if k == 1 then (w / 0x100 % 0x100) as byte
    else if k == 2 then (w / 0x1_0000 % 0x100) as byte
    else (w / 0x100_0000 % 0x100) as byte
  }

  function Encode(t: seq<nat>): (z: Zone)
    requires |t| == POINTERS
  {
    seq(BLOCK, i requires 0 <= i < BLOCK => ByteOf(t[i / 4], i % 4))
  }

  // What is written of pointer `i`, by arithmetic on the pointer.
  lemma EncodedBytes(t: seq<nat>, i: nat)
    requires |t| == POINTERS && i < POINTERS && t[i] < 0x1_0000_0000
    ensures Encode(t)[4 * i] as nat == t[i] % 0x100
    ensures Encode(t)[4 * i + 1] as nat == t[i] / 0x100 % 0x100
    ensures Encode(t)[4 * i + 2] as nat == t[i] / 0x1_0000 % 0x100
    ensures Encode(t)[4 * i + 3] as nat == t[i] / 0x100_0000
  {
    var z := Encode(t);
    assert z[4 * i] == ByteOf(t[i], 0) && z[4 * i + 1] == ByteOf(t[i], 1);
    assert z[4 * i + 2] == ByteOf(t[i], 2) && z[4 * i + 3] == ByteOf(t[i], 3);
  }

  // What is read is the sum of the four bytes.
  lemma DecodedSum(z: Zone, i: nat)
    requires i < POINTERS
    ensures Decode(z)[i] == z[4 * i] as nat + 0x100 * (z[4 * i + 1] as nat) + 0x1_0000 * (z[4 * i + 2] as nat)
                            + 0x100_0000 * (z[4 * i + 3] as nat)
  {
  }

  // Four bytes are the digits of their sum.
  lemma DigitsUnique(w: nat, a: nat, b: nat, c: nat, d: nat)
    requires a < 0x100 && b < 0x100 && c < 0x100 && d < 0x100
    ensures w == a + 0x100 * b + 0x1_0000 * c + 0x100_0000 * d <==>
              a == w % 0x100 && b == w / 0x100 % 0x100 && c == w / 0x1_0000 % 0x100 && d == w / 0x100_0000
  {
    var x := w / 0x100;
    var y := x / 0x100;
    assert w / 0x1_0000 == y && w / 0x100_0000 == y / 0x100;
  }

  // A zone is read as a table exactly if it holds the bytes of the table.
  lemma DecodesIff(z: Zone, t: seq<nat>)
    ensures Decode(z) == t <==> TableBytes(z, t)
  {
    if |t| == POINTERS {
      forall i: nat | i < POINTERS ensures Decode(z)[i] == t[i] <==> PointerBytes(z, i, t[i]) {
        DecodedSum(z, i);
        DigitsUnique(t[i], z[4 * i] as nat, z[4 * i + 1] as nat, z[4 * i + 2] as nat, z[4 * i + 3] as nat);
      }
    }
  }

  // A table that is written back lies on the disk byte by byte, and is read as it was.
  lemma DecodeEncode(t: seq<nat>)
    requires |t| == POINTERS && forall i :: 0 <= i < POINTERS ==> t[i] < 0x1_0000_0000
    ensures TableBytes(Encode(t), t) && Decode(Encode(t)) == t
  {
    forall i: nat | i < POINTERS ensures PointerBytes(Encode(t), i, t[i]) {
      EncodedBytes(t, i);
    }
    DecodesIff(Encode(t), t);
  }

  lemma DecodeZero()
    ensures TableBytes(ZeroZone(), NoPointers())
  {
  }
}
