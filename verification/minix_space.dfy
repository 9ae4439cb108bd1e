// How many zones a write to a Minix file needs, and how far it comes with those that are free.
module MinixSpace {
  import opened Basics
  import opened MinixSpec

  // The places on the way to a data zone, the zone included.
  function Ancestor(leaf: Loc, i: nat): Loc
    requires i <= |leaf.path|
  {
    Loc(leaf.root, leaf.path[..i])
  }

  // Those of them that are holes.
  function HolesOf(t: Tree, leaf: Loc): set<Loc> {
    set i: nat | i <= |leaf.path| && Ancestor(leaf, i) !in t.at :: Ancestor(leaf, i)
  }

  // The holes in the way of a write of `n` bytes.
  function Needed(t: Tree, from: nat, n: nat): set<Loc> {
    if n == 0 then {}
    else Needed(t, from, n - 1) + if from + n - 1 < LIMIT then HolesOf(t, LeafOf(from + n - 1)) else {}
  }

  lemma {:induction false} NeededGrows(t: Tree, from: nat, n: nat, m: nat)
    requires n <= m
    ensures Needed(t, from, n) <= Needed(t, from, m)
    decreases m
  {
    if n < m {
      NeededGrows(t, from, n, m - 1);
    }
  }

  lemma NeedsMore(t: Tree, from: nat, n: nat, m: nat)
    requires n <= m
    ensures |Needed(t, from, n)| <= |Needed(t, from, m)|
  {
    NeededGrows(t, from, n, m);
    Subset(Needed(t, from, n), Needed(t, from, m));
  }

  // A hole above a byte of the write is needed.
  lemma HoleNeeded(t: Tree, from: nat, n: nat, l: Loc)
    requires from + n < LIMIT && Below(LeafOf(from + n), l) && l !in t.at
    ensures l in Needed(t, from, n + 1)
  {
    var leaf := LeafOf(from + n);
    assert l == Ancestor(leaf, |l.path|);
    assert l in HolesOf(t, leaf);
  }

  // Nothing is above a place in the tree that is not in the tree.
  lemma {:induction false} AncestorThere(t: Tree, leaf: Loc, i: nat)
    requires WF(t) && leaf in t.at && i <= |leaf.path|
    ensures Ancestor(leaf, i) in t.at
    decreases |leaf.path| - i
  {
    if i == |leaf.path| {
      assert Ancestor(leaf, i) == leaf;
    } else {
      AncestorThere(t, leaf, i + 1);
      var a := Ancestor(leaf, i + 1);
      assert LocOk(t, a) && Parent(a) == Ancestor(leaf, i);
    }
  }

  // ---- Counting

  // A write that begins with the tree `was` and with `zones` free zones.
  datatype Job = Job(was: Tree, from: nat, length: nat, zones: nat)

  // `done` bytes have been written, and a place on the way to the next byte may have been filled.
  ghost predicate NeedOk(j: Job, at: map<Loc, nat>, done: nat, l: Loc) {
    && (l in j.was.at ==> l in at)
    && (l in at && l !in j.was.at ==> l in Needed(j.was, j.from, Min(done + 1, j.length)))
    && (l in Needed(j.was, j.from, done) ==> l in at)
  }

  // Of the free zones, `n` are left.
  ghost predicate Counted(j: Job, at: map<Loc, nat>, n: nat, done: nat) {
    && n + |at| == j.zones + |j.was.at| && done <= j.length
    && forall l {:trigger NeedOk(j, at, done, l)} :: NeedOk(j, at, done, l)
  }

  // The zones are enough for `done` bytes and not for one more.
  ghost predicate Stopped(j: Job, done: nat) {
    done < j.length && |Needed(j.was, j.from, done)| <= j.zones < |Needed(j.was, j.from, done + 1)|
  }

  // The byte after the first `done` ones lies below `l`.
  predicate OnTheWay(j: Job, done: nat, l: Loc) {
    j.from + done < LIMIT && Below(LeafOf(j.from + done), l)
  }

  lemma CountedBegins(j: Job)
    ensures Counted(j, j.was.at, j.zones, 0)
  {
    forall l ensures NeedOk(j, j.was.at, 0, l) {
    }
  }

  lemma CountedFill(j: Job, at: map<Loc, nat>, n: nat, done: nat, l: Loc, z: nat, at': map<Loc, nat>, n': nat)
    requires Counted(j, at, n, done) && n == n' + 1 && l !in at && at' == at[l := z] && done < j.length
    requires OnTheWay(j, done, l)
    ensures Counted(j, at', n', done)
  {
    assert NeedOk(j, at, done, l);
    HoleNeeded(j.was, j.from, done, l);
    forall q ensures NeedOk(j, at', done, q) {
      assert NeedOk(j, at, done, q);
    }
    OneMoreKey(at, l, z);
  }

  lemma OneMoreKey(at: map<Loc, nat>, l: Loc, z: nat)
    requires l !in at
    ensures |at[l := z]| == |at| + 1
  {
    assert at[l := z].Keys == at.Keys + {l};
    assert |at[l := z]| == |at[l := z].Keys| && |at| == |at.Keys|;
  }

  // Bytes of one data zone that is there.
  lemma {:induction false} CountedWrite(j: Job, t: Tree, n: nat, done: nat, k: nat, l: Loc)
    requires Counted(j, t.at, n, done) && done + k <= j.length && j.from + j.length <= LIMIT && WF(t) && l in t.at
    requires forall pos: nat :: j.from + done <= pos < j.from + done + k ==> LeafOf(pos) == l
    ensures Counted(j, t.at, n, done + k)
    decreases k
  {
    if k > 0 {
      CountedWrite(j, t, n, done, k - 1, l);
      CountedByte(j, t, n, done + k - 1, done + k, l);
    }
  }

  lemma CountedByte(j: Job, t: Tree, n: nat, done: nat, next: nat, l: Loc)
    requires Counted(j, t.at, n, done) && next == done + 1 <= j.length && j.from + j.length <= LIMIT
    requires WF(t) && l in t.at && LeafOf(j.from + done) == l
    ensures Counted(j, t.at, n, next)
  {
    NeededGrows(j.was, j.from, Min(done + 1, j.length), Min(next + 1, j.length));
    forall q ensures NeedOk(j, t.at, next, q) {
      assert NeedOk(j, t.at, done, q);
      NeededOrAbove(j.was, j.from, done, l, q);
      if q !in t.at && q in HolesOf(j.was, l) {
        var i: nat :| i <= |l.path| && Ancestor(l, i) !in j.was.at && q == Ancestor(l, i);
        AncestorThere(t, l, i);
      }
    }
  }

  lemma NeededOrAbove(t: Tree, from: nat, n: nat, l: Loc, q: Loc)
    requires from + n < LIMIT && LeafOf(from + n) == l
    ensures q in Needed(t, from, n + 1) <==> q in Needed(t, from, n) || q in HolesOf(t, l)
  {
  }

  lemma StopsHere(j: Job, at: map<Loc, nat>, done: nat, l: Loc)
    requires Counted(j, at, 0, done) && done < j.length && l !in at
    requires OnTheWay(j, done, l)
    ensures Stopped(j, done)
  {
    Filled(j, at, 0, done);
    assert NeedOk(j, at, done, l);
    HoleNeeded(j.was, j.from, done, l);
    var filled, needed := at.Keys - j.was.at.Keys, Needed(j.was, j.from, done + 1);
    forall q | q in filled ensures q in needed - {l} {
      assert NeedOk(j, at, done, q);
    }
    Subset(filled, needed - {l});
  }

  // How many zones have been used, and that those for the bytes written are among them.
  lemma Filled(j: Job, at: map<Loc, nat>, n: nat, done: nat)
    requires Counted(j, at, n, done)
    ensures |at.Keys - j.was.at.Keys| + n == j.zones
    ensures |Needed(j.was, j.from, done)| <= |at.Keys - j.was.at.Keys|
    ensures done == j.length ==> Needed(j.was, j.from, done) == at.Keys - j.was.at.Keys
  {
    var needed, filled := Needed(j.was, j.from, done), at.Keys - j.was.at.Keys;
    forall l ensures (l in j.was.at ==> l in at) && (l in needed ==> l in filled) {
      assert NeedOk(j, at, done, l);
      if l in needed {
        NeededAreHoles(j.was, j.from, done, l);
      }
    }
    MoreKeys(j.was.at, at);
    Subset(needed, filled);
    if done == j.length {
      forall l | l in filled ensures l in needed {
        assert NeedOk(j, at, done, l);
      }
    }
  }

  lemma MoreKeys(m: map<Loc, nat>, m': map<Loc, nat>)
    requires forall l :: l in m ==> l in m'
    ensures |m'.Keys - m.Keys| + |m| == |m'|
  {
    assert m'.Keys == m.Keys + (m'.Keys - m.Keys);
    assert |m'| == |m'.Keys| && |m| == |m.Keys|;
  }

  lemma {:induction false} NeededAreHoles(t: Tree, from: nat, n: nat, l: Loc)
    requires l in Needed(t, from, n)
    ensures l !in t.at
  {
    if n > 0 && l in Needed(t, from, n - 1) {
      NeededAreHoles(t, from, n - 1, l);
    }
  }

  // There is only one number of bytes at which a write can stop, and the zones are not enough for all of them.
  lemma StoppedUnique(j: Job, k: nat, k': nat)
    requires Stopped(j, k) && Stopped(j, k')
    ensures k == k'
  {
    NotEarlier(j, k, k');
    NotEarlier(j, k', k);
  }

  lemma StoppedNeedsMore(j: Job, k: nat)
    requires Stopped(j, k)
    ensures |Needed(j.was, j.from, j.length)| > j.zones
  {
    NeedsMore(j.was, j.from, k + 1, j.length);
  }

  lemma NotEarlier(j: Job, k: nat, k': nat)
    requires Stopped(j, k) && |Needed(j.was, j.from, k')| <= j.zones
    ensures k' <= k
  {
    if k < k' {
      NeedsMore(j.was, j.from, k + 1, k');
    }
  }

  // ---- The count as a value, for the length of a request

  // `counted` and `stopped` are the two predicates above for one job, `demand` the zones that it needs.
  datatype Space =
    Space(job: Job, counted: (map<Loc, nat>, nat, nat) -> bool, stopped: nat -> bool, demand: nat -> nat)

  ghost predicate SpaceAt(s: Space, at: map<Loc, nat>, n: nat, done: nat) {
    && s.counted(at, n, done) == Counted(s.job, at, n, done) && s.stopped(done) == Stopped(s.job, done)
    && s.demand(done) == |Needed(s.job.was, s.job.from, done)|
  }

  ghost predicate SpaceOk(s: Space) {
    forall at, n, done {:trigger SpaceAt(s, at, n, done)} :: SpaceAt(s, at, n, done)
  }

  lemma SpaceBegins(s: Space)
    requires SpaceOk(s)
    ensures s.counted(s.job.was.at, s.job.zones, 0)
  {
    CountedBegins(s.job);
    assert SpaceAt(s, s.job.was.at, s.job.zones, 0);
  }

  lemma SpaceFill(s: Space, at: map<Loc, nat>, n: nat, done: nat, l: Loc, z: nat, at': map<Loc, nat>, n': nat)
    requires SpaceOk(s) && s.counted(at, n, done) && n == n' + 1 && l !in at && at' == at[l := z]
    requires done < s.job.length && OnTheWay(s.job, done, l)
    ensures s.counted(at', n', done)
  {
    assert SpaceAt(s, at, n, done);
    CountedFill(s.job, at, n, done, l, z, at', n');
    assert SpaceAt(s, at', n', done);
  }

  lemma SpaceWrite(s: Space, t: Tree, n: nat, done: nat, k: nat, l: Loc)
    requires SpaceOk(s) && s.counted(t.at, n, done) && done + k <= s.job.length && s.job.from + s.job.length <= LIMIT
    requires WF(t) && l in t.at && forall pos: nat :: s.job.from + done <= pos < s.job.from + done + k ==>
             LeafOf(pos) == l
    ensures s.counted(t.at, n, done + k)
  {
    assert SpaceAt(s, t.at, n, done) && SpaceAt(s, t.at, n, done + k);
    CountedWrite(s.job, t, n, done, k, l);
  }

  lemma SpaceStops(s: Space, at: map<Loc, nat>, done: nat, l: Loc)
    requires SpaceOk(s) && s.counted(at, 0, done) && done < s.job.length && l !in at
    requires OnTheWay(s.job, done, l)
    ensures s.stopped(done)
  {
    assert SpaceAt(s, at, 0, done);
    StopsHere(s.job, at, done, l);
  }

  // What the count says at the end of a request.
  lemma SpaceUsed(s: Space, at: map<Loc, nat>, n: nat, done: nat)
    requires SpaceOk(s) && s.counted(at, n, done)
    ensures s.stopped(done) ==> s.demand(s.job.length) > s.job.zones
    ensures done == s.job.length ==> n + s.demand(done) == s.job.zones
  {
    assert SpaceAt(s, at, n, done) && SpaceAt(s, at, n, s.job.length);
    Filled(s.job, at, n, done);
    if s.stopped(done) {
      StoppedNeedsMore(s.job, done);
    }
  }

  lemma SpaceMeans(s: Space, k: nat)
    requires SpaceOk(s)
    ensures s.stopped(k) <==> Stopped(s.job, k)
    ensures s.demand(k) == |Needed(s.job.was, s.job.from, k)|
    ensures s.demand(0) == 0
  {
    assert SpaceAt(s, map[], 0, k) && SpaceAt(s, map[], 0, 0);
  }

  ghost function SpaceOf(j: Job): (s: Space)
    ensures SpaceOk(s) && s.job == j
  {
    Space(j, (at, n: nat, done: nat) => Counted(j, at, n, done), (done: nat) => Stopped(j, done),
          (done: nat) => |Needed(j.was, j.from, done)|)
  }
}
