/**
 The synchronous fixed-buffer copy `copy(ReadFD, WriteFD, buffer, autoClose, callback)`.

 The read handle is a fixed byte sequence with a cursor; a read fills a prefix of
 the caller's buffer with `min(capacity, remaining)` bytes and leaves the rest of
 the buffer as it was. The destination is the sequence of bytes written to it, in
 order. What the copy does is recorded as a trace of operations, which is compared
 with `CopyOps`, a chunk-by-chunk reference definition; the lemmas on `CopyOps`
 give the counts and the round trip.
 */
module BlockCopy {
  import opened Common

  /** The optional per-chunk callback. It receives the buffer (or the tail slice of
      it) and edits it in place, so what is written afterwards is its image. */
  type Callback = seq<byte> -> seq<byte>

  /** An in-place edit of a Node `Buffer` cannot change its length. */
  ghost predicate LengthPreserving(f: Callback)
  {
    forall c: seq<byte> :: |f(c)| == |c|
  }

  datatype Side = Source | Destination

  /** One host-visible step of a copy. */
  datatype Op =
    | Read(count: nat)          // `readSync` returned `count`
    | Invoke(chunk: seq<byte>)  // the callback was handed `chunk`
    | Write(bytes: seq<byte>)   // `writeSync` wrote `bytes`
    | Close(side: Side)         // `closeSync` on one handle

  /** The bytes a chunk is written as: the callback's image of it, if there is one. */
  function Apply(cb: Option<Callback>, chunk: seq<byte>): seq<byte>
  {
    match cb
    case None => chunk
    case Some(f) => f(chunk)
  }

  /** Forwarding one chunk: the callback (if any) immediately followed by the write. */
  function Emit(cb: Option<Callback>, chunk: seq<byte>): seq<Op>
  {
    match cb
    case None => [Write(chunk)]
    case Some(f) => [Invoke(chunk), Write(f(chunk))]
  }

  // ---------------------------------------------------------------------------
  // Reference definition
  // ---------------------------------------------------------------------------

  /** The source cut into pieces of `c` bytes, the last one possibly shorter. */
  function Chunks(s: seq<byte>, c: nat): seq<seq<byte>>
    requires c > 0
    decreases |s|
  {
    if |s| >= c then [s[..c]] + Chunks(s[c..], c)
    else if |s| == 0 then []
    else [s]
  }

  /** The operations the read loop and the tail write perform on the unread rest
      of the source: a full read is forwarded and the loop goes on; the first
      short read ends it, and its bytes (if any) are forwarded. */
  function Transfer(rest: seq<byte>, c: nat, cb: Option<Callback>): seq<Op>
    requires c > 0
    decreases |rest|
  {
    if |rest| >= c then [Read(c)] + Emit(cb, rest[..c]) + Transfer(rest[c..], c, cb)
    else [Read(|rest|)] + (if |rest| == 0 then [] else Emit(cb, rest))
  }

  /** The closes `autoClose` asks for: the write handle, then the read handle. */
  function Closing(autoClose: bool): seq<Op>
  {
    if autoClose then [Close(Destination), Close(Source)] else []
  }

  /** Everything a copy of `src` through a buffer of capacity `c` does. */
  function CopyOps(src: seq<byte>, c: nat, cb: Option<Callback>, autoClose: bool): seq<Op>
    requires c > 0
  {
    Transfer(src, c, cb) + Closing(autoClose)
  }

  /** The read loop alone, on what is left to read: every full read is forwarded,
      and the first short read ends the loop without forwarding anything. */
  function Loop(rest: seq<byte>, c: nat, cb: Option<Callback>): seq<Op>
    requires c > 0
    decreases |rest|
  {
    if |rest| >= c then [Read(c)] + Emit(cb, rest[..c]) + Loop(rest[c..], c, cb)
    else [Read(|rest|)]
  }

  /** The buffer when the read loop ends: the short read's bytes at the front,
      and behind them whatever the previous round left there, which is the
      callback's image of the last full chunk, or the caller's buffer as it was
      handed in when no read was full. */
  function Leftover(rest: seq<byte>, c: nat, cb: Option<Callback>, buffer: seq<byte>): (r: seq<byte>)
    requires c > 0 && |buffer| == c
    requires cb.Some? ==> LengthPreserving(cb.value)
    ensures |r| == c
    decreases |rest|
  {
    if |rest| >= c then Leftover(rest[c..], c, cb, Apply(cb, rest[..c]))
    else rest + buffer[|rest|..]
  }

  /** Everything a copy does when the read handle is at offset `start` of the
      source. The reads go on from there, but the size of the tail write,
      `lastOffset`, comes from the size of the whole file: it is `|src| % c`
      bytes taken from the front of the buffer, whatever the last read put there. */
  function CopyFrom(src: seq<byte>, start: nat, buffer0: seq<byte>, cb: Option<Callback>, autoClose: bool): seq<Op>
    requires start <= |src| && |buffer0| > 0
    requires cb.Some? ==> LengthPreserving(cb.value)
  {
    var c := |buffer0|;
    var lastOffset := |src| % c;
    Loop(src[start..], c, cb)
      + (if lastOffset == 0 then [] else Emit(cb, Leftover(src[start..], c, cb, buffer0)[..lastOffset]))
      + Closing(autoClose)
  }

  // ---------------------------------------------------------------------------
  // Projections of a trace
  // ---------------------------------------------------------------------------

  /** What `pick` selects from each operation, concatenated in order. */
  function Project<T>(ops: seq<Op>, pick: Op -> seq<T>): seq<T>
    decreases |ops|
  {
    if |ops| == 0 then [] else pick(ops[0]) + Project(ops[1..], pick)
  }

  function WriteOf(op: Op): seq<seq<byte>> { if op.Write? then [op.bytes] else [] }
  function ReadOf(op: Op): seq<nat> { if op.Read? then [op.count] else [] }
  function InvokeOf(op: Op): seq<seq<byte>> { if op.Invoke? then [op.chunk] else [] }
  function CloseOf(op: Op): seq<Side> { if op.Close? then [op.side] else [] }

  /** The byte sequences written, in order. */
  function Writes(ops: seq<Op>): seq<seq<byte>> { Project(ops, WriteOf) }

  /** The counts returned by the reads, in order. */
  function Reads(ops: seq<Op>): seq<nat> { Project(ops, ReadOf) }

  /** The chunks handed to the callback, in order. */
  function Invoked(ops: seq<Op>): seq<seq<byte>> { Project(ops, InvokeOf) }

  /** The handles closed, in order. */
  function Closes(ops: seq<Op>): seq<Side> { Project(ops, CloseOf) }

  /** Every callback invocation is immediately followed by the write of its image,
      and every write is immediately preceded by the invocation it writes. */
  predicate Paired(ops: seq<Op>, f: Callback)
    decreases |ops|
  {
    if |ops| == 0 then true
    else match ops[0]
      case Invoke(c) => 2 <= |ops| && ops[1] == Write(f(c)) && Paired(ops[2..], f)
      case Write(_) => false
      case _ => Paired(ops[1..], f)
  }

  /** Every chunk in the sequence mapped through the callback (if any). */
  function ApplyAll(cb: Option<Callback>, cs: seq<seq<byte>>): (r: seq<seq<byte>>)
    ensures |r| == |cs|
    decreases |cs|
  {
    if |cs| == 0 then [] else [Apply(cb, cs[0])] + ApplyAll(cb, cs[1..])
  }

  // ---------------------------------------------------------------------------
  // The copy itself
  // ---------------------------------------------------------------------------

  function Min(a: nat, b: nat): nat { if a <= b then a else b }

  /** `readSync(fd, buffer, 0, buffer.length, null)`: fills a prefix of the buffer
      from the cursor and returns how many bytes it read. */
  function ReadInto(src: seq<byte>, cursor: nat, buffer: seq<byte>): (r: (nat, seq<byte>))
    requires cursor <= |src|
    ensures r.0 == Min(|buffer|, |src| - cursor)
    ensures |r.1| == |buffer|
    ensures r.1[..r.0] == src[cursor..cursor + r.0]
    ensures r.1[r.0..] == buffer[r.0..]
    ensures r.1 == src[cursor..cursor + r.0] + buffer[r.0..]
  {
    var n := Min(|buffer|, |src| - cursor);
    (n, src[cursor..cursor + n] + buffer[n..])
  }

  /** What the read loop has done after reading `rest[..cursor]` in full rounds:
      the operations and writes so far are the reference loop's up to there, and
      what the loop will leave in the buffer is what the reference says. */
  ghost predicate Progress(rest: seq<byte>, buffer0: seq<byte>, cb: Option<Callback>,
                           cursor: nat, ops: seq<Op>, buffer: seq<byte>, dest: seq<byte>)
  {
    && |buffer0| > 0 && |buffer| == |buffer0|
    && (cb.Some? ==> LengthPreserving(cb.value))
    && cursor <= |rest| && cursor % |buffer0| == 0
    && ops + Loop(rest[cursor..], |buffer0|, cb) == Loop(rest, |buffer0|, cb)
    && Leftover(rest[cursor..], |buffer0|, cb, buffer) == Leftover(rest, |buffer0|, cb, buffer0)
    && dest == Flatten(Writes(ops))
  }

  /** The read loop on a read handle whose unread bytes are `rest`: reads into
      the buffer until a read returns fewer than `|buffer0|` bytes, forwarding
      every full buffer. Returns the operations so far, the bytes written so far,
      the buffer after the last (short) read and the count that read returned;
      `tail` is where in `rest` that read started. */
  method ReadLoop(rest: seq<byte>, buffer0: seq<byte>, cb: Option<Callback>)
    returns (ops: seq<Op>, dest: seq<byte>, buffer: seq<byte>, count: nat, ghost tail: nat)
    requires |buffer0| > 0
    requires cb.Some? ==> LengthPreserving(cb.value)
    ensures ops == Loop(rest, |buffer0|, cb)
    ensures buffer == Leftover(rest, |buffer0|, cb, buffer0)
    ensures tail + count == |rest| && count == |rest| % |buffer0|
    ensures buffer[..count] == rest[tail..]
    ensures dest == Flatten(Writes(ops))
  {
    var bufferSize := |buffer0|;
    buffer := buffer0;
    var cursor: nat := 0;
    ops := [];
    dest := [];
    while true
      invariant Progress(rest, buffer0, cb, cursor, ops, buffer, dest)
      decreases |rest| - cursor
    {
      var before := buffer;
      var read := ReadInto(rest, cursor, buffer);
      count, buffer := read.0, read.1;
      if !(count != 0 && count == bufferSize) {
        // The short read returned all that was left.
        assert rest[cursor..cursor + count] == rest[cursor..];
        ShortStep(rest, buffer0, cb, cursor, ops, before, dest);
        ops := ops + [Read(count)];
        tail := cursor;
        return;
      }
      assert buffer == rest[cursor..cursor + count] by {
        assert before[count..] == [];
      }
      FullStep(rest, buffer0, cb, cursor, ops, before, dest, count, buffer);
      ops := ops + [Read(count)];
      var chunk := buffer;
      buffer := Apply(cb, buffer);   // the callback edits the buffer in place
      ops := ops + Emit(cb, chunk);
      dest := dest + buffer;
      cursor := cursor + count;
    }
  }

  /** One full round of the loop keeps its progress. */
  lemma FullStep(rest: seq<byte>, buffer0: seq<byte>, cb: Option<Callback>,
                 cursor: nat, ops: seq<Op>, buffer: seq<byte>, dest: seq<byte>, count: nat, chunk: seq<byte>)
    requires Progress(rest, buffer0, cb, cursor, ops, buffer, dest)
    requires count == |buffer0| && cursor + count <= |rest| && chunk == rest[cursor..cursor + count]
    ensures Progress(rest, buffer0, cb, cursor + count, ops + [Read(count)] + Emit(cb, chunk),
                     Apply(cb, chunk), dest + Apply(cb, chunk))
  {
    var c := |buffer0|;
    var ops', image := ops + [Read(c)] + Emit(cb, chunk), Apply(cb, chunk);
    assert |image| == c;
    FullRound(rest, cursor, c, cb, ops);
    assert ops' + Loop(rest[cursor + c..], c, cb) == Loop(rest, c, cb);
    FullRoundBuffer(rest, cursor, c, cb, buffer, buffer0);
    assert Leftover(rest[cursor + c..], c, cb, image) == Leftover(rest, c, cb, buffer0);
    ReadStep(ops, c, dest);
    EmitStep(ops + [Read(c)], cb, chunk, dest);
    assert dest + image == Flatten(Writes(ops'));
    MultipleStep(cursor, c);
  }

  /** The short read ends the loop: it returns `|rest| % c` bytes, and the loop
      has then done all it does. */
  lemma ShortStep(rest: seq<byte>, buffer0: seq<byte>, cb: Option<Callback>,
                  cursor: nat, ops: seq<Op>, buffer: seq<byte>, dest: seq<byte>)
    requires Progress(rest, buffer0, cb, cursor, ops, buffer, dest)
    requires |rest| < cursor + |buffer0|
    ensures ops + [Read(|rest| - cursor)] == Loop(rest, |buffer0|, cb)
    ensures rest[cursor..] + buffer[|rest| - cursor..] == Leftover(rest, |buffer0|, cb, buffer0)
    ensures |rest| - cursor == |rest| % |buffer0|
    ensures dest == Flatten(Writes(ops + [Read(|rest| - cursor)]))
  {
    ShortRound(rest, cursor, |buffer0|, cb, ops, buffer, buffer0);
    MultiplePlus(cursor, |buffer0|, |rest| - cursor);
    ReadStep(ops, |rest| - cursor, dest);
  }

  /** The whole of `copy`, on the abstract handles. The read handle is at offset
      `start` of the source (0 for a freshly opened file). `buffer0` is the
      caller's buffer with whatever it held (it may be allocated unsafely).
      Returns the operations performed and the bytes the destination received.
      From an offset that is a multiple of the capacity, the copy is the
      chunk-by-chunk transfer of the rest of the source. */
  method Copy(src: seq<byte>, start: nat, buffer0: seq<byte>, autoClose: bool, cb: Option<Callback>)
    returns (ops: seq<Op>, dest: seq<byte>)
    requires start <= |src| && |buffer0| > 0
    requires cb.Some? ==> LengthPreserving(cb.value)
    ensures ops == CopyFrom(src, start, buffer0, cb, autoClose)
    ensures dest == Flatten(Writes(ops))
    ensures start % |buffer0| == 0 ==> ops == CopyOps(src[start..], |buffer0|, cb, autoClose)
    ensures start % |buffer0| == 0 ==> dest == Flatten(ApplyAll(cb, Chunks(src[start..], |buffer0|)))
    ensures start % |buffer0| == 0 && cb.None? ==> dest == src[start..]
  {
    var bufferSize := |buffer0|;
    var fileSize := |src|;
    var lastOffset := fileSize % bufferSize;   // computed once, before any read
    var buffer, count;
    ghost var tail;
    ops, dest, buffer, count, tail := ReadLoop(src[start..], buffer0, cb);   // reads go on from the handle's offset
    if lastOffset != 0 {
      var current := buffer[..lastOffset];
      var chunk := current;
      current := Apply(cb, current);   // the callback edits the slice in place
      EmitStep(ops, cb, chunk, dest);
      ops := ops + Emit(cb, chunk);
      dest := dest + current;
    }
    if autoClose {
      CloseStep(ops, dest);
      ops := ops + Closing(true);
    }
    if start % bufferSize == 0 {
      AlignedCopy(src, start, buffer0, cb, autoClose);
      CopyWrites(src[start..], bufferSize, cb, autoClose);
    }
  }

  /** A full read continues the loop: the chunk just read is forwarded and the
      loop goes on after it. */
  lemma FullRound(rest: seq<byte>, cursor: nat, c: nat, cb: Option<Callback>, ops: seq<Op>)
    requires 0 < c && cursor + c <= |rest|
    requires ops + Loop(rest[cursor..], c, cb) == Loop(rest, c, cb)
    ensures ops + [Read(c)] + Emit(cb, rest[cursor..cursor + c]) + Loop(rest[cursor + c..], c, cb)
            == Loop(rest, c, cb)
  {
    var r := rest[cursor..];
    assert r[..c] == rest[cursor..cursor + c];
    assert r[c..] == rest[cursor + c..];
    var e := Emit(cb, rest[cursor..cursor + c]);
    var l := Loop(rest[cursor + c..], c, cb);
    assert Loop(r, c, cb) == [Read(c)] + e + l;
    assert ops + ([Read(c)] + e + l) == ops + [Read(c)] + e + l;
  }

  /** After a full read the buffer holds the image of the chunk just read, and
      what the loop leaves in it is decided by the rest after that chunk. */
  lemma FullRoundBuffer(rest: seq<byte>, cursor: nat, c: nat, cb: Option<Callback>,
                        buffer: seq<byte>, buffer0: seq<byte>)
    requires 0 < c && cursor + c <= |rest| && |buffer| == c && |buffer0| == c
    requires cb.Some? ==> LengthPreserving(cb.value)
    requires Leftover(rest[cursor..], c, cb, buffer) == Leftover(rest, c, cb, buffer0)
    ensures Leftover(rest[cursor + c..], c, cb, Apply(cb, rest[cursor..cursor + c]))
            == Leftover(rest, c, cb, buffer0)
  {
    var r := rest[cursor..];
    assert r[..c] == rest[cursor..cursor + c];
    assert r[c..] == rest[cursor + c..];
    assert Leftover(r, c, cb, buffer) == Leftover(r[c..], c, cb, Apply(cb, r[..c]));
  }

  /** A short read ends the loop, and what it read sits at the front of the buffer. */
  lemma ShortRound(rest: seq<byte>, cursor: nat, c: nat, cb: Option<Callback>,
                   ops: seq<Op>, buffer: seq<byte>, buffer0: seq<byte>)
    requires cursor <= |rest| < cursor + c && |buffer| == c && |buffer0| == c
    requires cb.Some? ==> LengthPreserving(cb.value)
    requires ops + Loop(rest[cursor..], c, cb) == Loop(rest, c, cb)
    requires Leftover(rest[cursor..], c, cb, buffer) == Leftover(rest, c, cb, buffer0)
    ensures ops + [Read(|rest| - cursor)] == Loop(rest, c, cb)
    ensures rest[cursor..] + buffer[|rest| - cursor..] == Leftover(rest, c, cb, buffer0)
  {
  }

  // ---------------------------------------------------------------------------
  // Lemmas
  // ---------------------------------------------------------------------------

  lemma MulAtLeast(k: int, c: nat)
    requires k >= 1
    ensures k * c >= c
  {
  }

  /** Quotient and remainder are determined by `n == q * c + r` with `r < c`. */
  lemma DivModUnique(n: nat, c: nat, q: nat, r: nat)
    requires 0 <= r < c
    requires n == q * c + r
    ensures n / c == q && n % c == r
  {
    var q', r' := n / c, n % c;
    assert (q - q') * c == r' - r;
    if q > q' {
      MulAtLeast(q - q', c);
    } else if q < q' {
      MulAtLeast(q' - q, c);
    }
  }

  /** One more full buffer keeps the cursor at a multiple of the capacity. */
  lemma MultipleStep(x: nat, c: nat)
    requires c > 0 && x % c == 0
    ensures (x + c) % c == 0
  {
    DivModUnique(x + c, c, x / c + 1, 0);
  }

  /** A short read at a multiple of the capacity returns the size modulo the capacity. */
  lemma MultiplePlus(x: nat, c: nat, r: nat)
    requires r < c && x % c == 0
    ensures (x + r) % c == r
  {
    DivModUnique(x + r, c, x / c, r);
  }

  lemma DivModStep(n: nat, c: nat)
    requires 0 < c <= n
    ensures (n - c) / c == n / c - 1
    ensures (n - c) % c == n % c
  {
    var q, r := (n - c) / c, (n - c) % c;
    assert n == (q + 1) * c + r;
    DivModUnique(n, c, q + 1, r);
  }

  lemma SmallDivMod(n: nat, c: nat)
    requires n < c
    ensures n / c == 0 && n % c == n
  {
  }

  lemma {:induction false} ProjectAppend<T>(a: seq<Op>, b: seq<Op>, pick: Op -> seq<T>)
    ensures Project(a + b, pick) == Project(a, pick) + Project(b, pick)
    decreases |a|
  {
    if |a| == 0 {
      assert a + b == b;
    } else {
      assert (a + b)[1..] == a[1..] + b;
      ProjectAppend(a[1..], b, pick);
    }
  }

  lemma ProjectOne<T>(x: Op, pick: Op -> seq<T>)
    ensures Project([x], pick) == pick(x)
  {
    assert [x][1..] == [];
  }

  lemma ProjectCons<T>(x: Op, rest: seq<Op>, pick: Op -> seq<T>)
    ensures Project([x] + rest, pick) == pick(x) + Project(rest, pick)
  {
    assert ([x] + rest)[1..] == rest;
  }

  lemma WritesAppend(a: seq<Op>, b: seq<Op>)
    ensures Writes(a + b) == Writes(a) + Writes(b)
  {
    ProjectAppend(a, b, WriteOf);
  }

  /** What a projection sees of one forwarded chunk. */
  lemma EmitProject<T>(cb: Option<Callback>, chunk: seq<byte>, pick: Op -> seq<T>)
    ensures Project(Emit(cb, chunk), pick)
            == (if cb.Some? then pick(Invoke(chunk)) else []) + pick(Write(Apply(cb, chunk)))
  {
    match cb {
      case Some(f) =>
        assert Emit(cb, chunk) == [Invoke(chunk)] + [Write(f(chunk))];
        ProjectAppend([Invoke(chunk)], [Write(f(chunk))], pick);
        ProjectOne(Invoke(chunk), pick);
        ProjectOne(Write(f(chunk)), pick);
      case None =>
        ProjectOne(Write(chunk), pick);
    }
  }

  /** The loop's bookkeeping across one read. */
  lemma ReadStep(ops: seq<Op>, n: nat, dest: seq<byte>)
    requires dest == Flatten(Writes(ops))
    ensures dest == Flatten(Writes(ops + [Read(n)]))
  {
    WritesAppend(ops, [Read(n)]);
    ProjectOne(Read(n), WriteOf);
    assert Writes([Read(n)]) == [];
    assert Writes(ops + [Read(n)]) == Writes(ops);
  }

  /** The bookkeeping across the closes. */
  lemma CloseStep(ops: seq<Op>, dest: seq<byte>)
    requires dest == Flatten(Writes(ops))
    ensures dest == Flatten(Writes(ops + Closing(true)))
  {
    ClosingFacts(true);
    WritesAppend(ops, Closing(true));
    assert Writes(ops + Closing(true)) == Writes(ops);
  }

  /** The loop's bookkeeping across one forwarded chunk. */
  lemma EmitStep(ops: seq<Op>, cb: Option<Callback>, chunk: seq<byte>, dest: seq<byte>)
    requires dest == Flatten(Writes(ops))
    ensures dest + Apply(cb, chunk) == Flatten(Writes(ops + Emit(cb, chunk)))
  {
    WritesAppend(ops, Emit(cb, chunk));
    EmitProject(cb, chunk, WriteOf);
    assert Writes(Emit(cb, chunk)) == [Apply(cb, chunk)];
    FlattenAppend(Writes(ops), [Apply(cb, chunk)]);
    assert Flatten([Apply(cb, chunk)]) == Apply(cb, chunk) by {
      assert [Apply(cb, chunk)][1..] == [];
    }
  }

  /** What a projection sees of the closes. */
  lemma ClosingProject<T>(autoClose: bool, pick: Op -> seq<T>)
    ensures Project(Closing(autoClose), pick)
            == (if autoClose then pick(Close(Destination)) + pick(Close(Source)) else [])
  {
    if autoClose {
      assert Closing(true) == [Close(Destination)] + [Close(Source)];
      ProjectAppend([Close(Destination)], [Close(Source)], pick);
      ProjectOne(Close(Destination), pick);
      ProjectOne(Close(Source), pick);
    }
  }

  lemma ClosingFacts(autoClose: bool)
    ensures Writes(Closing(autoClose)) == []
    ensures Reads(Closing(autoClose)) == []
    ensures Invoked(Closing(autoClose)) == []
    ensures Closes(Closing(autoClose)) == (if autoClose then [Destination, Source] else [])
    ensures forall f: Callback :: Paired(Closing(autoClose), f)
  {
    ClosingProject(autoClose, WriteOf);
    ClosingProject(autoClose, ReadOf);
    ClosingProject(autoClose, InvokeOf);
    ClosingProject(autoClose, CloseOf);
    if autoClose {
      assert Closing(true)[1..][1..] == [];
    }
  }

  lemma {:induction false} PairedAppend(a: seq<Op>, b: seq<Op>, f: Callback)
    requires Paired(a, f) && Paired(b, f)
    ensures Paired(a + b, f)
    decreases |a|
  {
    if |a| == 0 {
      assert a + b == b;
    } else if a[0].Invoke? {
      assert (a + b)[2..] == a[2..] + b;
      PairedAppend(a[2..], b, f);
    } else {
      assert (a + b)[1..] == a[1..] + b;
      PairedAppend(a[1..], b, f);
    }
  }

  /** The round trip: the chunks put back together are the source. */
  lemma {:induction false} ChunksFlatten(s: seq<byte>, c: nat)
    requires c > 0
    ensures Flatten(Chunks(s, c)) == s
    decreases |s|
  {
    if |s| >= c {
      ChunksFlatten(s[c..], c);
      assert s[..c] + s[c..] == s;
    } else if |s| != 0 {
      assert [s][1..] == [];
    }
  }

  /** The shape of the chunking: `|s| / c` full chunks, then one chunk of
      `|s| % c` bytes exactly when that is not zero. */
  lemma {:induction false} ChunksShape(s: seq<byte>, c: nat)
    requires c > 0
    ensures |Chunks(s, c)| == |s| / c + (if |s| % c != 0 then 1 else 0)
    ensures forall i :: 0 <= i < |s| / c ==> |Chunks(s, c)[i]| == c
    ensures |s| % c != 0 ==> |Chunks(s, c)[|s| / c]| == |s| % c
    decreases |s|
  {
    if |s| >= c {
      ChunksShape(s[c..], c);
      DivModStep(|s|, c);
    } else {
      SmallDivMod(|s|, c);
    }
  }

  /** One round of the read loop, as each projection sees it. */
  lemma RoundProject<T>(n: nat, cb: Option<Callback>, chunk: seq<byte>, tail: seq<Op>, pick: Op -> seq<T>)
    ensures Project([Read(n)] + Emit(cb, chunk) + tail, pick)
            == pick(Read(n)) + Project(Emit(cb, chunk), pick) + Project(tail, pick)
  {
    ProjectAppend([Read(n)] + Emit(cb, chunk), tail, pick);
    ProjectAppend([Read(n)], Emit(cb, chunk), pick);
    ProjectOne(Read(n), pick);
  }

  /** The writes of the transfer are the chunks, each mapped through the callback. */
  lemma {:induction false} TransferWrites(rest: seq<byte>, c: nat, cb: Option<Callback>)
    requires c > 0
    ensures Writes(Transfer(rest, c, cb)) == ApplyAll(cb, Chunks(rest, c))
    decreases |rest|
  {
    if |rest| >= c {
      TransferWrites(rest[c..], c, cb);
      RoundProject(c, cb, rest[..c], Transfer(rest[c..], c, cb), WriteOf);
      EmitProject(cb, rest[..c], WriteOf);
    } else if |rest| != 0 {
      RoundProject(|rest|, cb, rest, [], WriteOf);
      EmitProject(cb, rest, WriteOf);
      assert Transfer(rest, c, cb) == [Read(|rest|)] + Emit(cb, rest) + [];
    } else {
      ProjectOne(Read(0), WriteOf);
    }
  }

  /** The reads of the transfer: `|rest| / c` full reads, then one read that
      returns `|rest| % c` bytes (zero when the size is a multiple of `c`). */
  lemma {:induction false} TransferReads(rest: seq<byte>, c: nat, cb: Option<Callback>)
    requires c > 0
    ensures Reads(Transfer(rest, c, cb)) == Repeat(c, |rest| / c) + [|rest| % c]
    decreases |rest|
  {
    if |rest| >= c {
      TransferReads(rest[c..], c, cb);
      DivModStep(|rest|, c);
      RoundProject(c, cb, rest[..c], Transfer(rest[c..], c, cb), ReadOf);
      EmitProject(cb, rest[..c], ReadOf);
      assert Repeat(c, |rest| / c) == [c] + Repeat(c, |rest[c..]| / c);
    } else {
      SmallDivMod(|rest|, c);
      if |rest| != 0 {
        RoundProject(|rest|, cb, rest, [], ReadOf);
        EmitProject(cb, rest, ReadOf);
        assert Transfer(rest, c, cb) == [Read(|rest|)] + Emit(cb, rest) + [];
      } else {
        ProjectOne(Read(0), ReadOf);
      }
    }
  }

  /** Which chunks the callback is handed during the transfer: with a callback,
      exactly the chunks of the source, in order; without one, none. */
  lemma {:induction false} TransferInvoked(rest: seq<byte>, c: nat, cb: Option<Callback>)
    requires c > 0
    ensures Invoked(Transfer(rest, c, cb)) == (if cb.Some? then Chunks(rest, c) else [])
    decreases |rest|
  {
    if |rest| >= c {
      TransferInvoked(rest[c..], c, cb);
      RoundProject(c, cb, rest[..c], Transfer(rest[c..], c, cb), InvokeOf);
      EmitProject(cb, rest[..c], InvokeOf);
    } else if |rest| != 0 {
      RoundProject(|rest|, cb, rest, [], InvokeOf);
      EmitProject(cb, rest, InvokeOf);
      assert Transfer(rest, c, cb) == [Read(|rest|)] + Emit(cb, rest) + [];
    } else {
      ProjectOne(Read(0), InvokeOf);
    }
  }

  /** Each invocation during the transfer is immediately followed by the write
      of its image, and no write goes without one. */
  lemma {:induction false} TransferPaired(rest: seq<byte>, c: nat, f: Callback)
    requires c > 0
    ensures Paired(Transfer(rest, c, Some(f)), f)
    decreases |rest|
  {
    var cb := Some(f);
    if |rest| >= c {
      TransferPaired(rest[c..], c, f);
      PairedEmit(c, f, rest[..c]);
      PairedAppend([Read(c)] + Emit(cb, rest[..c]), Transfer(rest[c..], c, cb), f);
    } else if |rest| != 0 {
      PairedEmit(|rest|, f, rest);
    }
  }

  lemma PairedEmit(n: nat, f: Callback, chunk: seq<byte>)
    ensures Paired([Read(n)] + Emit(Some(f), chunk), f)
  {
    var e := [Read(n)] + Emit(Some(f), chunk);
    assert e[1..][2..] == [];
  }

  /** The read loop closes nothing. */
  lemma {:induction false} TransferNoCloses(rest: seq<byte>, c: nat, cb: Option<Callback>)
    requires c > 0
    ensures Closes(Transfer(rest, c, cb)) == []
    decreases |rest|
  {
    if |rest| >= c {
      TransferNoCloses(rest[c..], c, cb);
      RoundProject(c, cb, rest[..c], Transfer(rest[c..], c, cb), CloseOf);
      EmitProject(cb, rest[..c], CloseOf);
    } else if |rest| != 0 {
      RoundProject(|rest|, cb, rest, [], CloseOf);
      EmitProject(cb, rest, CloseOf);
      assert Transfer(rest, c, cb) == [Read(|rest|)] + Emit(cb, rest) + [];
    } else {
      ProjectOne(Read(0), CloseOf);
    }
  }

  lemma {:induction false} ApplyAllNone(cs: seq<seq<byte>>)
    ensures ApplyAll(None, cs) == cs
    decreases |cs|
  {
    if |cs| != 0 {
      ApplyAllNone(cs[1..]);
    }
  }

  /** What the destination receives: the callback's images of the chunks, which
      without a callback put back together are the source itself. */
  lemma CopyWrites(src: seq<byte>, c: nat, cb: Option<Callback>, autoClose: bool)
    requires c > 0
    ensures Writes(CopyOps(src, c, cb, autoClose)) == ApplyAll(cb, Chunks(src, c))
    ensures cb.None? ==> Flatten(Writes(CopyOps(src, c, cb, autoClose))) == src
  {
    TransferWrites(src, c, cb);
    ClosingFacts(autoClose);
    WritesAppend(Transfer(src, c, cb), Closing(autoClose));
    if cb.None? {
      ApplyAllNone(Chunks(src, c));
      ChunksFlatten(src, c);
    }
  }

  lemma {:induction false} ApplyAllLengths(cb: Option<Callback>, cs: seq<seq<byte>>)
    requires cb.Some? ==> LengthPreserving(cb.value)
    ensures forall i :: 0 <= i < |cs| ==> |ApplyAll(cb, cs)[i]| == |cs[i]|
    decreases |cs|
  {
    if |cs| != 0 {
      ApplyAllLengths(cb, cs[1..]);
      assert forall i :: 1 <= i < |cs| ==> ApplyAll(cb, cs)[i] == ApplyAll(cb, cs[1..])[i - 1];
    }
  }

  /** The counts: `|src| / c` full writes of `c` bytes, plus one write of exactly
      `|src| % c` bytes iff that is not zero, so an empty source is never written;
      `|src| / c + 1` reads, the last returning `|src| % c`. */
  lemma CopyCounts(src: seq<byte>, c: nat, cb: Option<Callback>, autoClose: bool)
    requires c > 0
    requires cb.Some? ==> LengthPreserving(cb.value)
    ensures var w := Writes(CopyOps(src, c, cb, autoClose));
      && |w| == |src| / c + (if |src| % c != 0 then 1 else 0)
      && (forall i :: 0 <= i < |src| / c ==> |w[i]| == c)
      && (|src| % c != 0 ==> |w[|src| / c]| == |src| % c)
    ensures |src| == 0 ==> Writes(CopyOps(src, c, cb, autoClose)) == []
    ensures Reads(CopyOps(src, c, cb, autoClose)) == Repeat(c, |src| / c) + [|src| % c]
  {
    CopyWrites(src, c, cb, autoClose);
    ChunksShape(src, c);
    ApplyAllLengths(cb, Chunks(src, c));
    TransferReads(src, c, cb);
    ClosingFacts(autoClose);
    ProjectAppend(Transfer(src, c, cb), Closing(autoClose), ReadOf);
  }

  /** The callback sees every chunk once, in order, just before its image is
      written; without one it is never invoked. */
  lemma CopyInvokes(src: seq<byte>, c: nat, cb: Option<Callback>, autoClose: bool)
    requires c > 0
    ensures cb.Some? ==> Invoked(CopyOps(src, c, cb, autoClose)) == Chunks(src, c)
    ensures cb.Some? ==> Paired(CopyOps(src, c, cb, autoClose), cb.value)
    ensures cb.None? ==> Invoked(CopyOps(src, c, cb, autoClose)) == []
  {
    ClosingFacts(autoClose);
    ProjectAppend(Transfer(src, c, cb), Closing(autoClose), InvokeOf);
    TransferInvoked(src, c, cb);
    if cb.Some? {
      TransferPaired(src, c, cb.value);
      PairedAppend(Transfer(src, c, cb), Closing(autoClose), cb.value);
    }
  }

  /** `autoClose` closes the write handle and then the read handle, as the last
      two operations; without it no handle is closed. */
  lemma CopyCloses(src: seq<byte>, c: nat, cb: Option<Callback>, autoClose: bool)
    requires c > 0
    ensures autoClose ==> Closes(CopyOps(src, c, cb, autoClose)) == [Destination, Source]
    ensures autoClose ==> CopyOps(src, c, cb, autoClose)[|CopyOps(src, c, cb, autoClose)| - 2..]
                          == [Close(Destination), Close(Source)]
    ensures !autoClose ==> Closes(CopyOps(src, c, cb, autoClose)) == []
  {
    TransferNoCloses(src, c, cb);
    ClosingFacts(autoClose);
    ProjectAppend(Transfer(src, c, cb), Closing(autoClose), CloseOf);
  }

  /** A 10-byte source through a 4-byte buffer: two writes of 4 bytes and one of 2. */
  lemma TenThroughFour(src: seq<byte>)
    requires |src| == 10
    ensures Writes(CopyOps(src, 4, None, false)) == [src[..4], src[4..8], src[8..]]
    ensures Reads(CopyOps(src, 4, None, false)) == [4, 4, 2]
  {
    CopyWrites(src, 4, None, false);
    CopyCounts(src, 4, None, false);
    ApplyAllNone(Chunks(src, 4));
    assert src[4..][..4] == src[4..8] && src[4..][4..] == src[8..];
    assert Chunks(src, 4) == [src[..4]] + Chunks(src[4..], 4);
    assert Chunks(src[4..], 4) == [src[4..8]] + Chunks(src[8..], 4);
    assert Chunks(src[8..], 4) == [src[8..]];
  }

  /** A 12-byte source through a 4-byte buffer: three full writes, no tail. */
  lemma TwelveThroughFour(src: seq<byte>)
    requires |src| == 12
    ensures Writes(CopyOps(src, 4, None, false)) == [src[..4], src[4..8], src[8..]]
    ensures Reads(CopyOps(src, 4, None, false)) == [4, 4, 4, 0]
  {
    CopyWrites(src, 4, None, false);
    CopyCounts(src, 4, None, false);
    ApplyAllNone(Chunks(src, 4));
    assert src[4..][..4] == src[4..8] && src[4..][4..] == src[8..];
    assert Chunks(src, 4) == [src[..4]] + Chunks(src[4..], 4);
    assert Chunks(src[4..], 4) == [src[4..8]] + Chunks(src[8..], 4);
    assert src[8..][..4] == src[8..] && src[8..][4..] == [];
    assert Chunks(src[8..], 4) == [src[8..]] + Chunks([], 4);
  }

  // ---------------------------------------------------------------------------
  // A read handle that does not start at offset 0
  // ---------------------------------------------------------------------------

  lemma MulMonoLt(a: nat, b: nat, c: nat)
    requires a * c < b * c
    ensures a < b
  {
    if a >= b {
      MulSub(a, b, c);
    }
  }

  lemma MulSub(a: int, b: int, c: int)
    ensures (a - b) * c == a * c - b * c
  {
  }

  /** `n` lies below the next multiple of `c` after its quotient's. */
  lemma BelowNext(n: nat, c: nat)
    requires c > 0
    ensures n < (n / c + 1) * c
  {
    assert (n / c + 1) * c == (n / c) * c + c;
  }

  /** Removing a multiple of `c` keeps the remainder. */
  lemma ModShiftAligned(n: nat, s: nat, c: nat)
    requires s <= n && c > 0 && s % c == 0
    ensures (n - s) % c == n % c
  {
    var q1, q3 := n / c, s / c;
    assert s == q3 * c;
    BelowNext(n, c);
    MulMonoLt(q3, q1 + 1, c);
    MulSub(q1, q3, c);
    DivModUnique(n - s, c, q1 - q3, n % c);
  }

  /** If removing `s` keeps the remainder, `s` is a multiple of `c`. */
  lemma ModShiftBack(n: nat, s: nat, c: nat)
    requires s <= n && c > 0 && (n - s) % c == n % c
    ensures s % c == 0
  {
    var q1, q2 := n / c, (n - s) / c;
    assert n - s == q2 * c + n % c;
    BelowNext(n, c);
    MulMonoLt(q2, q1 + 1, c);
    MulSub(q1, q2, c);
    DivModUnique(s, c, q1 - q2, 0);
  }

  /** The rest from `s` has the same remainder as the whole iff `s` is a multiple of `c`. */
  lemma ModShift(n: nat, s: nat, c: nat)
    requires s <= n && c > 0
    ensures (n - s) % c == n % c <==> s % c == 0
  {
    if s % c == 0 {
      ModShiftAligned(n, s, c);
    }
    if (n - s) % c == n % c {
      ModShiftBack(n, s, c);
    }
  }

  /** The reference transfer is the read loop followed by the forwarding of what
      the short read returned, if anything. */
  lemma {:induction false} TransferLoop(rest: seq<byte>, c: nat, cb: Option<Callback>)
    requires c > 0
    ensures Transfer(rest, c, cb)
            == Loop(rest, c, cb) + (if |rest| % c == 0 then [] else Emit(cb, rest[|rest| - |rest| % c..]))
    decreases |rest|
  {
    if |rest| >= c {
      var tail := rest[c..];
      TransferLoop(tail, c, cb);
      DivModStep(|rest|, c);
      var r := |rest| % c;
      assert |tail| % c == r;
      assert tail[|tail| - r..] == rest[|rest| - r..];
      var last := if r == 0 then [] else Emit(cb, rest[|rest| - r..]);
      calc {
        Transfer(rest, c, cb);
        [Read(c)] + Emit(cb, rest[..c]) + Transfer(tail, c, cb);
        [Read(c)] + Emit(cb, rest[..c]) + (Loop(tail, c, cb) + last);
        Loop(rest, c, cb) + last;
      }
    } else {
      SmallDivMod(|rest|, c);
      assert rest[0..] == rest;
    }
  }

  /** When the loop ends, the front of the buffer holds what the short read returned. */
  lemma {:induction false} LeftoverFront(rest: seq<byte>, c: nat, cb: Option<Callback>, buffer: seq<byte>)
    requires c > 0 && |buffer| == c
    requires cb.Some? ==> LengthPreserving(cb.value)
    ensures Leftover(rest, c, cb, buffer)[..|rest| % c] == rest[|rest| - |rest| % c..]
    decreases |rest|
  {
    if |rest| >= c {
      LeftoverFront(rest[c..], c, cb, Apply(cb, rest[..c]));
      DivModStep(|rest|, c);
      assert rest[c..][|rest| - c - |rest| % c..] == rest[|rest| - |rest| % c..];
    } else {
      SmallDivMod(|rest|, c);
    }
  }

  /** From an offset that is a multiple of the capacity, `lastOffset` is what the
      short read returned, so the copy is the chunk-by-chunk transfer of the rest. */
  lemma AlignedCopy(src: seq<byte>, start: nat, buffer0: seq<byte>, cb: Option<Callback>, autoClose: bool)
    requires start <= |src| && |buffer0| > 0
    requires cb.Some? ==> LengthPreserving(cb.value)
    requires start % |buffer0| == 0
    ensures CopyFrom(src, start, buffer0, cb, autoClose) == CopyOps(src[start..], |buffer0|, cb, autoClose)
  {
    var c, rest := |buffer0|, src[start..];
    ModShift(|src|, start, c);
    TransferLoop(rest, c, cb);
    LeftoverFront(rest, c, cb, buffer0);
  }

  /** The loop writes every full chunk: all of the rest but its last `|rest| % c` bytes. */
  lemma {:induction false} LoopLength(rest: seq<byte>, c: nat, cb: Option<Callback>)
    requires c > 0
    requires cb.Some? ==> LengthPreserving(cb.value)
    ensures |Flatten(Writes(Loop(rest, c, cb)))| == |rest| - |rest| % c
    decreases |rest|
  {
    if |rest| >= c {
      LoopLength(rest[c..], c, cb);
      DivModStep(|rest|, c);
      RoundProject(c, cb, rest[..c], Loop(rest[c..], c, cb), WriteOf);
      EmitProject(cb, rest[..c], WriteOf);
      var w := Writes(Loop(rest[c..], c, cb));
      assert Writes(Loop(rest, c, cb)) == [Apply(cb, rest[..c])] + w;
      assert ([Apply(cb, rest[..c])] + w)[1..] == w;
    } else {
      SmallDivMod(|rest|, c);
      ProjectOne(Read(|rest|), WriteOf);
    }
  }

  /** The writes of a copy from `start`: the loop's, then the tail write of
      `|src| % c` bytes from the front of the buffer, if that is not zero. */
  lemma CopyFromWrites(src: seq<byte>, start: nat, buffer0: seq<byte>, cb: Option<Callback>, autoClose: bool)
    requires start <= |src| && |buffer0| > 0
    requires cb.Some? ==> LengthPreserving(cb.value)
    ensures var c, rest := |buffer0|, src[start..];
      Writes(CopyFrom(src, start, buffer0, cb, autoClose))
      == Writes(Loop(rest, c, cb))
         + (if |src| % c == 0 then [] else [Apply(cb, Leftover(rest, c, cb, buffer0)[..|src| % c])])
  {
    var c, rest := |buffer0|, src[start..];
    var lastOffset := |src| % c;
    var tailOps := if lastOffset == 0 then [] else Emit(cb, Leftover(rest, c, cb, buffer0)[..lastOffset]);
    ClosingFacts(autoClose);
    WritesAppend(Loop(rest, c, cb) + tailOps, Closing(autoClose));
    WritesAppend(Loop(rest, c, cb), tailOps);
    if lastOffset != 0 {
      EmitProject(cb, Leftover(rest, c, cb, buffer0)[..lastOffset], WriteOf);
    }
  }

  /** How many bytes the destination receives from a read handle at `start`: the
      full chunks of the rest, then `|src| % c` bytes however many the short read
      returned. So it receives exactly as many bytes as are left to read iff
      `start` is a multiple of `c`. */
  lemma CopyFromLength(src: seq<byte>, start: nat, buffer0: seq<byte>, cb: Option<Callback>, autoClose: bool)
    requires start <= |src| && |buffer0| > 0
    requires cb.Some? ==> LengthPreserving(cb.value)
    ensures var c := |buffer0|;
      |Flatten(Writes(CopyFrom(src, start, buffer0, cb, autoClose)))|
      == (|src| - start) - (|src| - start) % c + |src| % c
    ensures |Flatten(Writes(CopyFrom(src, start, buffer0, cb, autoClose)))| == |src| - start
            <==> start % |buffer0| == 0
  {
    var c, rest := |buffer0|, src[start..];
    var lastOffset := |src| % c;
    CopyFromWrites(src, start, buffer0, cb, autoClose);
    LoopLength(rest, c, cb);
    var tailWrites: seq<seq<byte>> := [];
    if lastOffset != 0 {
      tailWrites := [Apply(cb, Leftover(rest, c, cb, buffer0)[..lastOffset])];
      assert tailWrites[1..] == [];
      assert |Flatten(tailWrites)| == lastOffset;
    }
    FlattenAppend(Writes(Loop(rest, c, cb)), tailWrites);
    ModShift(|src|, start, c);
  }

  /** Without a callback, the destination receives exactly the rest of the source
      iff the read handle started at a multiple of the capacity. */
  lemma CopyFromWhole(src: seq<byte>, start: nat, buffer0: seq<byte>, autoClose: bool)
    requires start <= |src| && |buffer0| > 0
    ensures Flatten(Writes(CopyFrom(src, start, buffer0, None, autoClose))) == src[start..]
            <==> start % |buffer0| == 0
  {
    CopyFromLength(src, start, buffer0, None, autoClose);
    if start % |buffer0| == 0 {
      AlignedCopy(src, start, buffer0, None, autoClose);
      CopyWrites(src[start..], |buffer0|, None, autoClose);
    }
  }

  /** From offset 3 of a 10-byte source through a 4-byte buffer the reads return
      4 and then 3, but the tail write takes `10 % 4 == 2` bytes: the last byte
      of the source is never written. */
  lemma StartThreeDropsLastByte(src: seq<byte>, buffer0: seq<byte>)
    requires |src| == 10 && |buffer0| == 4
    ensures Reads(CopyFrom(src, 3, buffer0, None, false)) == [4, 3]
    ensures Writes(CopyFrom(src, 3, buffer0, None, false)) == [src[3..7], src[7..9]]
  {
    var rest := src[3..];
    assert rest[..4] == src[3..7] && rest[4..] == src[7..];
    assert Loop(src[7..], 4, None) == [Read(3)];
    assert Loop(rest, 4, None) == [Read(4)] + [Write(src[3..7])] + [Read(3)];
    assert Leftover(src[7..], 4, None, src[3..7]) == src[7..] + src[3..7][3..];
    assert Leftover(rest, 4, None, buffer0)[..2] == src[7..9];
    var o2 := [Read(3)] + [Write(src[7..9])];
    var o1 := [Write(src[3..7])] + o2;
    assert CopyFrom(src, 3, buffer0, None, false) == [Read(4)] + o1;
    ProjectCons(Read(4), o1, ReadOf);
    ProjectCons(Write(src[3..7]), o2, ReadOf);
    ProjectCons(Read(3), [Write(src[7..9])], ReadOf);
    ProjectOne(Write(src[7..9]), ReadOf);
    ProjectCons(Read(4), o1, WriteOf);
    ProjectCons(Write(src[3..7]), o2, WriteOf);
    ProjectCons(Read(3), [Write(src[7..9])], WriteOf);
    ProjectOne(Write(src[7..9]), WriteOf);
  }

  /** From offset 2 of a 10-byte source through a 4-byte buffer every read is
      full and the last returns 0, yet the tail write takes 2 bytes from the
      front of the buffer: bytes 6 and 7 are written a second time. */
  lemma StartTwoRewritesStale(src: seq<byte>, buffer0: seq<byte>)
    requires |src| == 10 && |buffer0| == 4
    ensures Reads(CopyFrom(src, 2, buffer0, None, false)) == [4, 4, 0]
    ensures Writes(CopyFrom(src, 2, buffer0, None, false)) == [src[2..6], src[6..10], src[6..8]]
  {
    var rest := src[2..];
    assert rest[..4] == src[2..6] && rest[4..] == src[6..];
    assert src[6..][..4] == src[6..10] && src[6..][4..] == [];
    assert Loop([], 4, None) == [Read(0)];
    assert Loop(src[6..], 4, None) == [Read(4)] + [Write(src[6..10])] + [Read(0)];
    assert Loop(rest, 4, None) == [Read(4)] + [Write(src[2..6])] + [Read(4), Write(src[6..10]), Read(0)];
    assert Leftover(src[6..], 4, None, src[2..6]) == Leftover([], 4, None, src[6..10]);
    assert Leftover(rest, 4, None, buffer0)[..2] == src[6..8];
    var o4 := [Read(0)] + [Write(src[6..8])];
    var o3 := [Write(src[6..10])] + o4;
    var o2 := [Read(4)] + o3;
    var o1 := [Write(src[2..6])] + o2;
    assert CopyFrom(src, 2, buffer0, None, false) == [Read(4)] + o1;
    ProjectCons(Read(4), o1, ReadOf);
    ProjectCons(Write(src[2..6]), o2, ReadOf);
    ProjectCons(Read(4), o3, ReadOf);
    ProjectCons(Write(src[6..10]), o4, ReadOf);
    ProjectCons(Read(0), [Write(src[6..8])], ReadOf);
    ProjectOne(Write(src[6..8]), ReadOf);
    ProjectCons(Read(4), o1, WriteOf);
    ProjectCons(Write(src[2..6]), o2, WriteOf);
    ProjectCons(Read(4), o3, WriteOf);
    ProjectCons(Write(src[6..10]), o4, WriteOf);
    ProjectCons(Read(0), [Write(src[6..8])], WriteOf);
    ProjectOne(Write(src[6..8]), WriteOf);
  }

  /** The same copy with a callback: the stale tail it is handed last is its own
      image of the previous chunk, which it then edits a second time. */
  lemma StaleTailEditedAgain(src: seq<byte>, buffer0: seq<byte>, f: Callback)
    requires |src| == 10 && |buffer0| == 4 && LengthPreserving(f)
    ensures Invoked(CopyFrom(src, 2, buffer0, Some(f), false)) == [src[2..6], src[6..10], f(src[6..10])[..2]]
  {
    var g := f(src[6..10])[..2];
    var p7 := [Invoke(g)] + [Write(f(g))];
    var p6 := [Read(0)] + p7;
    var p5 := [Write(f(src[6..10]))] + p6;
    var p4 := [Invoke(src[6..10])] + p5;
    var p3 := [Read(4)] + p4;
    var p2 := [Write(f(src[2..6]))] + p3;
    var p1 := [Invoke(src[2..6])] + p2;
    StaleTailOps(src, buffer0, f);
    ProjectCons(Read(4), p1, InvokeOf);
    ProjectCons(Invoke(src[2..6]), p2, InvokeOf);
    ProjectCons(Write(f(src[2..6])), p3, InvokeOf);
    ProjectCons(Read(4), p4, InvokeOf);
    ProjectCons(Invoke(src[6..10]), p5, InvokeOf);
    ProjectCons(Write(f(src[6..10])), p6, InvokeOf);
    ProjectCons(Read(0), p7, InvokeOf);
    ProjectCons(Invoke(g), [Write(f(g))], InvokeOf);
    ProjectOne(Write(f(g)), InvokeOf);
  }

  lemma StaleTailOps(src: seq<byte>, buffer0: seq<byte>, f: Callback)
    requires |src| == 10 && |buffer0| == 4 && LengthPreserving(f)
    ensures var g := f(src[6..10])[..2];
      CopyFrom(src, 2, buffer0, Some(f), false)
      == [Read(4)] + ([Invoke(src[2..6])] + ([Write(f(src[2..6]))] + ([Read(4)] + ([Invoke(src[6..10])]
         + ([Write(f(src[6..10]))] + ([Read(0)] + ([Invoke(g)] + [Write(f(g))])))))))
  {
    var rest := src[2..];
    assert rest[..4] == src[2..6] && rest[4..] == src[6..];
    assert src[6..][..4] == src[6..10] && src[6..][4..] == [];
    assert Loop([], 4, Some(f)) == [Read(0)];
    assert Loop(src[6..], 4, Some(f)) == [Read(4)] + [Invoke(src[6..10]), Write(f(src[6..10]))] + [Read(0)];
    assert Loop(rest, 4, Some(f))
           == [Read(4)] + [Invoke(src[2..6]), Write(f(src[2..6]))]
              + [Read(4), Invoke(src[6..10]), Write(f(src[6..10])), Read(0)];
    assert |f(src[2..6])| == 4 && |f(src[6..10])| == 4;
    assert Leftover(src[6..], 4, Some(f), f(src[2..6])) == Leftover([], 4, Some(f), f(src[6..10]));
    var g := f(src[6..10])[..2];
    assert Leftover(rest, 4, Some(f), buffer0)[..2] == g;
    assert CopyFrom(src, 2, buffer0, Some(f), false) == Loop(rest, 4, Some(f)) + [Invoke(g), Write(f(g))] + [];
  }
}
