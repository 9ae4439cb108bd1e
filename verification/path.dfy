// kernel/src/files/path.c: reducing a path in the buffer that holds it.
module Paths {
  import opened Basics
  import opened PathSpec

  // A string in a buffer, up to the first zero.
  ghost predicate Holds(path: array<char>, s: string)
    reads path
  {
    |s| < path.Length && path[..|s|] == s && path[|s|] == '\0' && '\0' !in s
  }

  // What is still to be read is untouched.
  ghost predicate Unread(path: array<char>, s: string, read: nat)
    reads path
  {
    |s| < path.Length && read <= |s| && '\0' !in s && path[|s|] == '\0' && path[read..|s|] == s[read..]
  }

  // What has been written for the segments in `stack`. Only the last segment of the path can be without a slash.
  ghost predicate Written(path: array<char>, s: string, read: nat, insert: nat, abs: bool, stack: seq<string>)
    reads path
  {
    && insert <= read <= |s| < path.Length && '\0' !in path[..insert]
    && (|| path[..insert] == Open(abs, stack)
        || (read == |s| && stack != [] && path[..insert] + "/" == Open(abs, stack)))
  }

  // Copying a segment with the slash behind it, if there is one.
  method CopySegment(path: array<char>, ghost s: string, read0: nat, insert0: nat, nextSlash: nat)
    returns (read: nat, insert: nat)
    requires Unread(path, s, read0) && insert0 <= read0 <= nextSlash <= |s|
    modifies path
    ensures Unread(path, s, read) && read == (if nextSlash < |s| then nextSlash + 1 else |s|)
    ensures insert - insert0 == read - read0 && insert <= read
    ensures path[..insert] == old(path[..insert0]) + s[read0..read]
  {
    read, insert := read0, insert0;
    while read <= nextSlash && path[read] != '\0'
      invariant read0 <= read <= |s| && read <= nextSlash + 1 && insert == insert0 + (read - read0)
      invariant Unread(path, s, read) && path[..insert] == old(path[..insert0]) + s[read0..read]
      decreases |s| - read
    {
      assert path[read] == path[read..|s|][0] == s[read];
      ghost var done := path[..insert];
      path[insert] := path[read];
      assert path[..insert + 1] == done + [s[read]];
      assert s[read0..read + 1] == s[read0..read] + [s[read]];
      read := read + 1;
      insert := insert + 1;
    }
    if read < |s| {
      assert path[read] == path[read..|s|][0] == s[read] && s[read] in s;
    }
  }

  // Going back over the last segment.
  method DropSegment(path: array<char>, insert0: nat, ghost abs: bool, ghost stack: seq<string>) returns (insert: nat)
    requires insert0 <= path.Length && path[..insert0] == Open(abs, stack) && stack != [] && Segment(stack[|stack| - 1])
    ensures insert <= insert0 && path[..insert] == Open(abs, stack[..|stack| - 1])
  {
    OpenEnds(abs, stack[..|stack| - 1]);
    insert := BackUp(path, insert0, Open(abs, stack[..|stack| - 1]), stack[|stack| - 1]);
  }

  method BackUp(path: array<char>, insert0: nat, ghost kept: string, ghost last: string) returns (insert: nat)
    requires insert0 <= path.Length && path[..insert0] == kept + last + "/"
             && (forall i :: 0 <= i < |last| ==> last[i] != '/')
    requires kept == "" || kept[|kept| - 1] == '/'
    ensures insert <= insert0 && path[..insert] == kept
  {
    ghost var all := path[..insert0];
    insert := insert0 - 1;
    while insert > 0 && path[insert - 1] != '/'
      invariant |kept| <= insert <= insert0 - 1
    {
      assert path[insert - 1] == all[insert - 1];
      insert := insert - 1;
    }
    assert forall i :: 0 <= i < insert ==> path[i] == all[i];
  }

  lemma OpenEnds(abs: bool, stack: seq<string>)
    ensures Open(abs, stack) == "" || Open(abs, stack)[|Open(abs, stack)| - 1] == '/'
  {
  }

  // Skipping slashes.
  method SkipSlashes(path: array<char>, ghost s: string, read0: nat) returns (read: nat)
    requires Unread(path, s, read0)
    ensures read0 <= read && Unread(path, s, read) && Segments(s[read..]) == Segments(s[read0..])
    ensures read < |s| ==> s[read] != '/'
  {
    read := read0;
    while path[read] == '/'
      invariant read0 <= read && Unread(path, s, read) && Segments(s[read..]) == Segments(s[read0..])
      decreases |s| - read
    {
      assert path[read..|s|][0] == s[read..][0];
      assert s[read..][1..] == s[read + 1..];
      assert path[read + 1..|s|] == path[read..|s|][1..];
      read := read + 1;
    }
    if read < |s| {
      assert path[read..|s|][0] == s[read..][0];
    }
  }

  // Finding the end of a segment.
  method FindEnd(path: array<char>, ghost s: string, read: nat) returns (next: nat)
    requires Unread(path, s, read)
    ensures read <= next <= |s| && (forall i :: read <= i < next ==> s[i] != '/') && (next < |s| ==> s[next] == '/')
    ensures forall i :: read <= i < |s| ==> path[i] == s[i]
  {
    forall i | read <= i < |s| ensures path[i] == s[i] {
      assert path[read..|s|][i - read] == s[read..][i - read];
    }
    next := read;
    while path[next] != '\0' && path[next] != '/'
      invariant read <= next <= |s| && forall i :: read <= i < next ==> s[i] != '/'
      decreases |s| - next
    {
      next := next + 1;
    }
  }

  // What the segment between `read` and `next` means for the rest.
  lemma NextSegment(s: string, read: nat, next: nat)
    requires read < next <= |s| && (forall i :: read <= i < next ==> s[i] != '/') && (next < |s| ==> s[next] == '/')
    ensures Segments(s[read..]) == [s[read..next]] + Segments(s[next..])
  {
    var t := s[read..];
    assert t == s[read..next] + s[next..];
    LengthOf(s[read..next], s[next..]);
  }

  // Where the loop of inlineReducePath is.
  ghost predicate Reducing(path: array<char>, s: string, read: nat, insert: nat, segments: int, abs: bool,
                           stack: seq<string>, k: nat)
    reads path
  {
    && Unread(path, s, read) && Written(path, s, read, insert, abs, stack) && Normal(abs, stack, k)
    && (read < |s| ==> segments == |stack| - k && path[..insert] == Open(abs, stack))
    && Normalise(abs, stack, Segments(s[read..])) == Normalise(abs, [], Segments(s))
  }

  lemma OpenSnoc(abs: bool, stack: seq<string>, seg: string)
    ensures Open(abs, stack + [seg]) == Open(abs, stack) + seg + "/"
  {
    assert (stack + [seg])[..|stack|] == stack;
  }

  lemma UnreadLater(path: array<char>, s: string, read: nat, later: nat)
    requires Unread(path, s, read) && read <= later <= |s|
    ensures Unread(path, s, later)
  {
    assert path[later..|s|] == path[read..|s|][later - read..];
    assert s[later..] == s[read..][later - read..];
  }

  // What the three cases have in common: the segment between `read` and `next` is dealt with as `Push` says.
  lemma Pushed(s: string, read: nat, next: nat, after: nat, abs: bool, stack: seq<string>, k: nat) returns (k': nat)
    requires read < next <= |s| && (forall i :: read <= i < next ==> s[i] != '/') && (next < |s| ==> s[next] == '/')
    requires Normal(abs, stack, k) && (after == next || after == next + 1 <= |s|)
    ensures Normalise(abs, Push(abs, stack, s[read..next]), Segments(s[after..]))
            == Normalise(abs, stack, Segments(s[read..]))
    ensures Normal(abs, Push(abs, stack, s[read..next]), k')
    ensures k' == if s[read..next] == ".." && !abs && k == |stack| then k + 1 else k
  {
    PushedRest(s, read, next, after, abs, stack);
    k' := PushNormal(abs, stack, s[read..next], k);
  }

  lemma PushedRest(s: string, read: nat, next: nat, after: nat, abs: bool, stack: seq<string>)
    requires read < next <= |s| && (forall i :: read <= i < next ==> s[i] != '/') && (next < |s| ==> s[next] == '/')
    requires after == next || after == next + 1 <= |s|
    ensures Normalise(abs, Push(abs, stack, s[read..next]), Segments(s[after..]))
            == Normalise(abs, stack, Segments(s[read..]))
  {
    NextSegment(s, read, next);
    AfterSlash(s, next, after);
    NormaliseOne(abs, stack, s[read..next], Segments(s[next..]), Segments(s[read..]));
  }

  lemma AfterSlash(s: string, next: nat, after: nat)
    requires next <= |s| && (after == next || after == next + 1 <= |s|) && (next < |s| ==> s[next] == '/')
    ensures Segments(s[after..]) == Segments(s[next..])
  {
    if after > next {
      assert s[next..][1..] == s[after..];
    }
  }

  lemma NormaliseOne(abs: bool, stack: seq<string>, seg: string, rest: seq<string>, all: seq<string>)
    requires all == [seg] + rest
    ensures Normalise(abs, stack, all) == Normalise(abs, Push(abs, stack, seg), rest)
  {
    assert all[1..] == rest;
  }

  // The segment is written.
  method KeepSegment(path: array<char>, ghost s: string, read0: nat, insert0: nat, next: nat, ghost abs: bool,
                     ghost stack: seq<string>)
    returns (read: nat, insert: nat)
    requires Unread(path, s, read0) && insert0 <= read0 < next <= |s| && path[..insert0] == Open(abs, stack)
             && '\0' !in path[..insert0]
    requires next < |s| ==> s[next] == '/'
    modifies path
    ensures Unread(path, s, read) && Written(path, s, read, insert, abs, stack + [s[read0..next]]) && read0 < read
    ensures read < |s| ==> path[..insert] == Open(abs, stack + [s[read0..next]])
    ensures read == next || read == next + 1 <= |s|
  {
    ghost var open := path[..insert0];
    read, insert := CopySegment(path, s, read0, insert0, next);
    KeptText(s, read0, next, read, abs, stack, open, path[..insert]);
  }

  // What has been written then.
  lemma KeptText(s: string, read0: nat, next: nat, read: nat, abs: bool, stack: seq<string>, open: string, text: string)
    requires read0 < next <= |s| && read == (if next < |s| then next + 1 else |s|) && (next < |s| ==> s[next] == '/')
    requires open == Open(abs, stack) && text == open + s[read0..read] && '\0' !in open && '\0' !in s
    ensures '\0' !in text
    ensures if next < |s| then text == Open(abs, stack + [s[read0..next]])
            else text + "/" == Open(abs, stack + [s[read0..next]])
  {
    var seg, slash := s[read0..next], "/";
    OpenSnoc(abs, stack, seg);
    NoZeros(open, s, read0, read, text);
    if next < |s| {
      SegmentAndSlash(s, read0, next, slash);
      Associative(open, seg, slash);
    }
  }

  lemma NoZeros(open: string, s: string, from: nat, to: nat, text: string)
    requires '\0' !in open && '\0' !in s && from <= to <= |s| && text == open + s[from..to]
    ensures '\0' !in text
  {
  }

  lemma SegmentAndSlash(s: string, from: nat, next: nat, slash: string)
    requires from <= next < |s| && slash == [s[next]]
    ensures s[from..next + 1] == s[from..next] + slash
  {
  }

  // One round of the loop.
  method ReduceSegment(path: array<char>, ghost s: string, read0: nat, insert0: nat, segments0: int, isAbsolute: bool,
                       ghost stack0: seq<string>, ghost k0: nat)
    returns (read: nat, insert: nat, segments: int, ghost stack: seq<string>, ghost k: nat)
    requires Reducing(path, s, read0, insert0, segments0, isAbsolute, stack0, k0) && read0 < |s|
    modifies path
    ensures Reducing(path, s, read, insert, segments, isAbsolute, stack, k) && read > read0
  {
    read := SkipSlashes(path, s, read0);
    var next := FindEnd(path, s, read);
    if next == read {
      // Nothing comes behind the last slashes.
      insert, segments, stack, k := insert0, segments0 + 1, stack0, k0;
    } else {
      read, insert, segments, stack, k := ReduceAt(path, s, read, insert0, segments0, isAbsolute, next, stack0, k0);
    }
  }

  // The loop is at the segment between `read` and `next`.
  ghost predicate AtSegment(path: array<char>, s: string, read: nat, insert: nat, segments: int, abs: bool, next: nat,
                            stack: seq<string>, k: nat)
    reads path
  {
    && Unread(path, s, read) && insert <= read < next <= |s|
    && (forall i :: read <= i < next ==> s[i] != '/') && (next < |s| ==> s[next] == '/')
    && path[..insert] == Open(abs, stack) && '\0' !in path[..insert]
    && Normal(abs, stack, k) && segments == |stack| - k
    && Normalise(abs, stack, Segments(s[read..])) == Normalise(abs, [], Segments(s))
  }

  method ReduceAt(path: array<char>, ghost s: string, read0: nat, insert0: nat, segments0: int, isAbsolute: bool,
                  next: nat, ghost stack0: seq<string>, ghost k0: nat)
    returns (read: nat, insert: nat, segments: int, ghost stack: seq<string>, ghost k: nat)
    requires AtSegment(path, s, read0, insert0, segments0, isAbsolute, next, stack0, k0)
    requires forall i :: read0 <= i < |s| ==> path[i] == s[i]
    modifies path
    ensures Reducing(path, s, read, insert, segments, isAbsolute, stack, k) && read > read0
  {
    Dots(s, read0, next);
    if next == read0 + 1 && path[read0] == '.' {
      Skipped(path, s, read0, next, insert0, segments0, isAbsolute, stack0, k0);
      read, insert, segments, stack, k := read0 + 1, insert0, segments0, stack0, k0;
    } else if next == read0 + 2 && path[read0] == '.' && path[read0 + 1] == '.' {
      read, insert, segments, stack, k := ReduceDots(path, s, read0, insert0, segments0, isAbsolute, stack0, k0);
    } else {
      read, insert, stack, k := WriteSegment(path, s, read0, insert0, segments0, next, isAbsolute, stack0, k0);
      segments := segments0 + 1;
    }
  }

  // A segment that has no effect.
  lemma Skipped(path: array<char>, s: string, read: nat, next: nat, insert: nat, segments: int, abs: bool,
                stack: seq<string>, k: nat)
    requires AtSegment(path, s, read, insert, segments, abs, next, stack, k)
    requires s[read..next] == "." || (s[read..next] == ".." && abs && stack == [])
    ensures Reducing(path, s, next, insert, segments, abs, stack, k)
  {
    var k' := Pushed(s, read, next, next, abs, stack, k);
    UnreadLater(path, s, read, next);
  }

  // How the source recognises '.' and '..'.
  lemma Dots(s: string, read: nat, next: nat)
    requires read < next <= |s|
    ensures s[read..next] == "." <==> next == read + 1 && s[read] == '.'
    ensures s[read..next] == ".." <==> next == read + 2 && s[read] == '.' && s[read + 1] == '.'
  {
    var seg := s[read..next];
    assert seg[0] == s[read] && (|seg| > 1 ==> seg[1] == s[read + 1]);
  }

  // A segment that is written.
  method WriteSegment(path: array<char>, ghost s: string, read0: nat, insert0: nat, ghost segments: int, next: nat,
                      ghost abs: bool, ghost stack0: seq<string>, ghost k0: nat)
    returns (read: nat, insert: nat, ghost stack: seq<string>, ghost k: nat)
    requires AtSegment(path, s, read0, insert0, segments, abs, next, stack0, k0)
    requires s[read0..next] != "." && (s[read0..next] == ".." ==> !abs && k0 == |stack0|)
    modifies path
    ensures Reducing(path, s, read, insert, if s[read0..next] == ".." then segments else segments + 1, abs, stack, k)
            && read > read0
  {
    read, insert := KeepSegment(path, s, read0, insert0, next, abs, stack0);
    k := Pushed(s, read0, next, read, abs, stack0, k0);
    stack := Push(abs, stack0, s[read0..next]);
    assert stack == stack0 + [s[read0..next]];
  }

  // The segment is '..'.
  method ReduceDots(path: array<char>, ghost s: string, read0: nat, insert0: nat, segments0: int, isAbsolute: bool,
                    ghost stack0: seq<string>, ghost k0: nat)
    returns (read: nat, insert: nat, segments: int, ghost stack: seq<string>, ghost k: nat)
    requires AtSegment(path, s, read0, insert0, segments0, isAbsolute, read0 + 2, stack0, k0)
             && s[read0..read0 + 2] == ".."
    modifies path
    ensures Reducing(path, s, read, insert, segments, isAbsolute, stack, k) && read > read0
  {
    insert, segments, stack, k := insert0, segments0, stack0, k0;
    if segments > 0 {
      insert := DropDots(path, s, read0, insert0, segments0, isAbsolute, stack0, k0);
      read, segments, stack := read0 + 2, segments - 1, stack0[..|stack0| - 1];
    } else if isAbsolute {
      Skipped(path, s, read0, read0 + 2, insert, segments, isAbsolute, stack, k);
      read := read0 + 2;
    } else {
      read, insert, stack, k := WriteSegment(path, s, read0, insert0, segments, read0 + 2, isAbsolute, stack0, k0);
    }
  }

  // It removes the segment before it.
  method DropDots(path: array<char>, ghost s: string, ghost read: nat, insert0: nat, ghost segments: int,
                  ghost abs: bool, ghost stack: seq<string>, ghost k: nat) returns (insert: nat)
    requires AtSegment(path, s, read, insert0, segments, abs, read + 2, stack, k) && s[read..read + 2] == ".."
             && segments > 0
    ensures Reducing(path, s, read + 2, insert, segments - 1, abs, stack[..|stack| - 1], k)
  {
    DroppedRest(s, read, abs, stack, k);
    UnreadLater(path, s, read, read + 2);
    insert := DropSegment(path, insert0, abs, stack);
    assert path[..insert] == path[..insert0][..insert];
  }

  lemma DroppedRest(s: string, read: nat, abs: bool, stack: seq<string>, k: nat)
    requires read + 2 <= |s| && (forall i :: read <= i < read + 2 ==> s[i] != '/')
    requires (read + 2 < |s| ==> s[read + 2] == '/') && s[read..read + 2] == ".." && Normal(abs, stack, k)
             && k < |stack|
    ensures Segment(stack[|stack| - 1]) && Normal(abs, stack[..|stack| - 1], k)
    ensures Normalise(abs, stack[..|stack| - 1], Segments(s[read + 2..])) == Normalise(abs, stack, Segments(s[read..]))
  {
    var k' := Pushed(s, read, read + 2, read + 2, abs, stack, k);
  }

  // The end of inlineReducePath: without the last slash.
  method Finish(path: array<char>, insert0: nat, ghost s: string, ghost abs: bool, ghost stack: seq<string>,
                ghost k: nat)
    requires Written(path, s, |s|, insert0, abs, stack) && Normal(abs, stack, k)
    modifies path
    ensures Holds(path, Render(abs, stack))
  {
    var insert := insert0;
    if insert > 1 && path[insert - 1] == '/' {
      insert := insert - 1;
    }
    assert path[..insert] == path[..insert0][..insert];
    path[insert] := '\0';
  }

  // inlineReducePath
  method InlineReducePath(path: array<char>, ghost s: string)
    requires Holds(path, s)
    modifies path
    ensures Holds(path, Reduced(s))
  {
    var read: nat, insert: nat, segments, isAbsolute := 0, 0, 0, false;
    ghost var stack: seq<string>, k: nat := [], 0;
    assert s[0..] == s && path[0..|s|] == path[..|s|];
    if path[read] == '/' {
      assert path[..|s|][0] == '/';
      UnreadLater(path, s, 0, 1);
      assert path[..1] == "/";
      read, insert, isAbsolute := 1, 1, true;
    } else {
      assert s != "" ==> path[..|s|][0] == s[0];
    }
    while path[read] != '\0'
      invariant Reducing(path, s, read, insert, segments, isAbsolute, stack, k) && isAbsolute == Absolute(s)
      decreases |s| - read
    {
      read, insert, segments, stack, k := ReduceSegment(path, s, read, insert, segments, isAbsolute, stack, k);
    }
    Finish(path, insert, s, isAbsolute, stack, k);
  }
}
