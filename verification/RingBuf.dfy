/** `RingBuf`: a byte ring with wrapping 32-bit counters, its views as at most two pieces of the buffer, and the
    flags that tell when a waiting reader or writer is to be woken. */
module RingBuf {
  import opened Basics

  const U32: nat := 0x1_0000_0000

  // Positions in a ring of `len` bytes.

  function Wrap(x: nat, len: nat): nat
    requires x < 2 * len
  {
    if x < len then x else x - len
  }

  /** The position a counter points to: its remainder modulo the length, which is a power of two, so that
      masking gives it. */
  function Pos(c: nat, len: nat): (p: nat)
    requires len > 0
    ensures p < len
  {
    if c < len then c else Pos(c - len, len)
  }

  /** `k` times `len`. */
  function Times(k: nat, len: nat): nat {
    if k == 0 then 0 else Times(k - 1, len) + len
  }

  lemma {:induction false} PosMultiple(r: nat, len: nat, k: nat)
    requires len > 0
    ensures Pos(r + Times(k, len), len) == Pos(r, len)
    decreases k
  {
    if k > 0 {
      PosMultiple(r, len, k - 1);
    }
  }

  /** A counter is its position plus a multiple of the length. */
  lemma {:induction false} PosIsRemainder(c: nat, len: nat) returns (k: nat)
    requires len > 0
    ensures c == Pos(c, len) + Times(k, len)
    decreases c
  {
    if c < len {
      k := 0;
    } else {
      k := PosIsRemainder(c - len, len);
      k := k + 1;
    }
  }

  /** What `RingSize` says of divisibility; see `Unit` in Basics. */
  ghost predicate DividesIn(u: Unit, n: nat) {
    exists k: nat :: Times(k, n) == U32
  }

  /** The length divides 2^32, which is to say it is a power of two, so that the counters wrap at a multiple of it. */
  ghost predicate RingSize(len: nat) {
    0 < len < U32 && forall u: Unit :: DividesIn(u, len)
  }

  lemma {:induction false} PosPlus(c: nat, n: nat, len: nat)
    requires 0 < len && n <= len
    ensures Pos(c + n, len) == Wrap(Pos(c, len) + n, len)
    decreases c
  {
    if c >= len {
      PosPlus(c - len, n, len);
    }
  }

  type Counter = c: nat | c < U32

  /** n as u32 */
  function Trunc(n: nat): Counter {
    n % U32
  }

  /** c.wrapping_add(n) */
  function Plus(c: Counter, n: Counter): Counter {
    if c + n < U32 then c + n else c + n - U32
  }

  /** tail.wrapping_sub(head) */
  function Distance(head: Counter, tail: Counter): Counter {
    if head <= tail then tail - head else tail + U32 - head
  }

  /** Where a counter points after it has moved on by at most the length of the ring. */
  lemma Advance(c: Counter, n: Counter, len: nat)
    requires RingSize(len) && n <= len
    ensures Pos(Plus(c, n), len) == Wrap(Pos(c, len) + n, len)
  {
    PosPlus(c, n, len);
    if c + n >= U32 {
      assert DividesIn(Unit, len);
      var k: nat :| Times(k, len) == U32;
      PosMultiple(c + n - U32, len, k);
    }
  }

  /** The `n` bytes of the ring from position `p` on. */
  function Slice(b: seq<Byte>, p: nat, n: nat): seq<Byte>
    requires p < |b| && n <= |b|
  {
    seq(n, i requires 0 <= i < n => b[Wrap(p + i, |b|)])
  }

  /** The same in one piece or in two. */
  lemma SlicePieces(b: seq<Byte>, p: nat, n: nat)
    requires p < |b| && n <= |b|
    ensures Slice(b, p, n) == if n <= |b| - p then b[p..p + n] else b[p..] + b[..n - (|b| - p)]
  {
    var s, r := Slice(b, p, n), if n <= |b| - p then b[p..p + n] else b[p..] + b[..n - (|b| - p)];
    forall i | 0 <= i < n ensures s[i] == r[i] {
      assert s[i] == b[Wrap(p + i, |b|)];
    }
  }

  /** The ring with `data` written from position `p` on. */
  function Put(b: seq<Byte>, p: nat, data: seq<Byte>): (b': seq<Byte>)
    requires p < |b| && |data| <= |b|
    ensures |b'| == |b|
  {
    if |data| <= |b| - p then b[..p] + data + b[p + |data|..]
    else
      var first := |b| - p;
      data[first..] + b[|data| - first..p] + data[..first]
  }

  /** Data written after the first `n` bytes of the ring comes after them. */
  lemma PutAfter(b: seq<Byte>, p: nat, n: nat, data: seq<Byte>)
    requires p < |b| && n + |data| <= |b| && n < |b|
    ensures Slice(Put(b, Wrap(p + n, |b|), data), p, n + |data|) == Slice(b, p, n) + data
  {
    var q := Wrap(p + n, |b|);
    var b' := Put(b, q, data);
    var l, r := Slice(b', p, n + |data|), Slice(b, p, n) + data;
    forall i | 0 <= i < n + |data| ensures l[i] == r[i] {
      assert l[i] == b'[Wrap(p + i, |b|)];
    }
  }

  lemma SliceSplit(b: seq<Byte>, p: nat, n: nat, k: nat)
    requires p < |b| && k <= n <= |b|
    ensures Slice(b, p, n)[..k] == Slice(b, p, k) && Slice(b, p, n)[k..] == Slice(b, Wrap(p + k, |b|), n - k)
  {
    var q := Wrap(p + k, |b|);
    var l, r := Slice(b, p, n)[k..], Slice(b, q, n - k);
    forall i | 0 <= i < n - k ensures l[i] == r[i] {
      assert l[i] == Slice(b, p, n)[k + i];
      assert Wrap(p + (k + i), |b|) == Wrap(q + i, |b|);
    }
  }

  // Views of the ring as pieces of the buffer.

  /** A piece of memory: where it starts in the buffer, and its length. */
  datatype IoVec = IoVec(start: nat, len: nat)

  /** Room for two pieces, of which the first `cnt` count. */
  datatype SocketBufIovs = SocketBufIovs(first: IoVec, second: IoVec, cnt: nat)

  predicate Inside(v: IoVec, b: seq<Byte>) {
    v.start + v.len <= |b|
  }

  function Piece(v: IoVec, b: seq<Byte>): seq<Byte>
    requires Inside(v, b)
  {
    b[v.start..v.start + v.len]
  }

  predicate Fits(v: SocketBufIovs, b: seq<Byte>) {
    v.cnt <= 2 && (v.cnt >= 1 ==> Inside(v.first, b)) && (v.cnt == 2 ==> Inside(v.second, b))
  }

  /** The bytes the pieces hold, one after the other. */
  function Bytes(v: SocketBufIovs, b: seq<Byte>): seq<Byte>
    requires Fits(v, b)
  {
    (if v.cnt >= 1 then Piece(v.first, b) else []) + (if v.cnt == 2 then Piece(v.second, b) else [])
  }

  function Count(v: SocketBufIovs): nat {
    (if v.cnt >= 1 then v.first.len else 0) + (if v.cnt >= 2 then v.second.len else 0)
  }

  /** Address `j` of the buffer lies in one of the pieces. */
  predicate Holds(v: SocketBufIovs, j: nat) {
    (v.cnt >= 1 && v.first.start <= j < v.first.start + v.first.len) ||
    (v.cnt >= 2 && v.second.start <= j < v.second.start + v.second.len)
  }

  /** The `n` bytes from position `p` on as pieces. */
  function Pieces(p: nat, n: nat, len: nat, stale: SocketBufIovs): SocketBufIovs
    requires p < len && n <= len
  {
    if n == 0 then stale.(cnt := 0)
    else if len - p < n then SocketBufIovs(IoVec(p, len - p), IoVec(0, n - (len - p)), 2)
    else SocketBufIovs(IoVec(p, n), stale.second, 1)
  }

  lemma PiecesHold(b: seq<Byte>, p: nat, n: nat, stale: SocketBufIovs)
    requires p < |b| && n <= |b|
    ensures Fits(Pieces(p, n, |b|, stale), b) && Bytes(Pieces(p, n, |b|, stale), b) == Slice(b, p, n)
  {
    SlicePieces(b, p, n);
  }

  /** The pieces that hold the data and the pieces that hold the space cover the buffer, each byte once. */
  lemma PiecesTile(p: nat, n: nat, len: nat, stale: SocketBufIovs, stale': SocketBufIovs, j: nat)
    requires p < len && n <= len && j < len
    ensures Holds(Pieces(p, n, len, stale), j) <==> !Holds(Pieces(Wrap(p + n, len), len - n, len, stale'), j)
  {
  }

  lemma Cut(b: seq<Byte>, v: IoVec, n: nat)
    requires Inside(v, b) && n <= v.len
    ensures Piece(v, b)[n..] == Piece(IoVec(v.start + n, v.len - n), b)
  {
  }

  lemma DropFirst(x: seq<Byte>, y: seq<Byte>, n: nat)
    requires n <= |x| + |y|
    ensures (x + y)[n..] == if n <= |x| then x[n..] + y else y[n - |x|..]
  {
  }

  /** Dropping nothing from no pieces while the first slot is empty takes one from a count of zero. */
  predicate Underflows(v: SocketBufIovs) {
    v.cnt == 0 && v.first.len == 0
  }

  /** What is left of the pieces when the first `size` bytes are dropped. */
  function Dropped(v: SocketBufIovs, size: nat): SocketBufIovs
    requires v.cnt <= 2 && size <= Count(v)
  {
    if v.first.len > size then v.(first := IoVec(v.first.start + size, v.first.len - size))
    else if v.first.len == size then v.(first := v.second, cnt := if v.cnt == 0 then U32 - 1 else v.cnt - 1)
    else v.(first := IoVec(v.second.start + (size - v.first.len), Count(v) - size), cnt := 1)
  }

  lemma DroppedBytes(v: SocketBufIovs, size: nat, b: seq<Byte>)
    requires v.cnt <= 2 && size <= Count(v) && !Underflows(v) && Fits(v, b)
    ensures Fits(Dropped(v, size), b) && Bytes(Dropped(v, size), b) == Bytes(v, b)[size..]
  {
    if v.cnt == 1 {
      DroppedOne(v, size, b);
    } else if v.cnt == 2 {
      DroppedTwo(v, size, b);
    }
  }

  lemma DroppedOne(v: SocketBufIovs, size: nat, b: seq<Byte>)
    requires v.cnt == 1 && size <= v.first.len && Fits(v, b)
    ensures Fits(Dropped(v, size), b) && Bytes(Dropped(v, size), b) == Bytes(v, b)[size..]
  {
    if size < v.first.len {
      Cut(b, v.first, size);
    }
  }

  lemma DroppedTwo(v: SocketBufIovs, size: nat, b: seq<Byte>)
    requires v.cnt == 2 && size <= v.first.len + v.second.len && Fits(v, b)
    ensures Fits(Dropped(v, size), b) && Bytes(Dropped(v, size), b) == Bytes(v, b)[size..]
  {
    var x, y := Piece(v.first, b), Piece(v.second, b);
    assert Bytes(v, b) == x + y;
    DropFirst(x, y, size);
    if size < v.first.len {
      Cut(b, v.first, size);
    } else if size > v.first.len {
      Cut(b, v.second, size - v.first.len);
    }
  }

  /** Drops the first `size` bytes of the pieces, which is what it asserts there are. */
  method ConsumeIovs(v: SocketBufIovs, size: nat) returns (v': SocketBufIovs)
    requires v.cnt <= 2 && size <= Count(v)
    ensures Underflows(v) ==> v'.cnt == U32 - 1 && v'.first == v.second && v'.second == v.second
    ensures !Underflows(v) ==>
              v'.cnt <= v.cnt && forall b | Fits(v, b) :: Fits(v', b) && Bytes(v', b) == Bytes(v, b)[size..]
  {
    if v.first.len > size {
      v' := v.(first := IoVec(v.first.start + size, v.first.len - size));
    } else if v.first.len == size {
      v' := v.(first := v.second, cnt := if v.cnt == 0 then U32 - 1 else v.cnt - 1);
    } else {
      var left := Count(v) - size;
      v' := v.(first := IoVec(v.second.start + (size - v.first.len), left), cnt := 1);
    }
    assert v' == Dropped(v, size);
    if !Underflows(v) {
      forall b | Fits(v, b) ensures Fits(v', b) && Bytes(v', b) == Bytes(v, b)[size..] {
        DroppedBytes(v, size, b);
      }
    }
  }

  /** The bytes `b` with `data` written over them from position `p` on. Writing nothing has no position. */
  function Splice(b: seq<Byte>, p: nat, data: seq<Byte>): seq<Byte>
    requires data == [] || p + |data| <= |b|
  {
    if data == [] then b else b[..p] + data + b[p + |data|..]
  }

  /** Copies `data` to `mem` from position `p` on. */
  method Copy(mem: array<Byte>, p: nat, data: seq<Byte>)
    requires data == [] || p + |data| <= mem.Length
    modifies mem
    ensures mem[..] == Splice(old(mem[..]), p, data)
  {
    for i := 0 to |data|
      invariant mem[..] == Splice(old(mem[..]), p, data[..i])
    {
      mem[p + i] := data[i];
      assert data[..i + 1] == data[..i] + [data[i]];
    }
    assert data[..|data|] == data;
  }

  /** Writes to the pieces of a buffer. It fails if they are too short. */
  method WriteSlice(mem: array<Byte>, v: SocketBufIovs, data: seq<Byte>) returns (ok: bool, v': SocketBufIovs)
    requires Fits(v, mem[..])
    modifies mem
    ensures ok <==> |data| <= Count(v)
    ensures !ok ==> mem[..] == old(mem[..]) && v' == v
    ensures ok ==>
              if |data| <= v.first.len then
                (data == [] || Inside(v.first, mem[..])) && mem[..] == Splice(old(mem[..]), v.first.start, data)
              else
                mem[..] == Splice(Splice(old(mem[..]), v.first.start, data[..v.first.len]),
                                  v.second.start, data[v.first.len..])
    ensures ok && !Underflows(v) ==> Fits(v', mem[..]) && Bytes(v', mem[..]) == Bytes(v, mem[..])[|data|..]
    ensures ok && Underflows(v) ==> v'.cnt == U32 - 1
  {
    if Count(v) < |data| {
      return false, v;
    }
    if v.first.len >= |data| {
      Copy(mem, v.first.start, data);
    } else {
      Copy(mem, v.first.start, data[..v.first.len]);
      Copy(mem, v.second.start, data[v.first.len..]);
    }
    v' := ConsumeIovs(v, |data|);
    ok := true;
  }

  lemma PutSplices(b: seq<Byte>, p: nat, data: seq<Byte>)
    requires p < |b| && |data| <= |b|
    ensures |data| <= |b| - p ==> Put(b, p, data) == Splice(b, p, data)
    ensures |data| > |b| - p ==>
              Put(b, p, data) == Splice(Splice(b, p, data[..|b| - p]), 0, data[|b| - p..])
  {
  }

  /** Writing to the pieces of the space is writing to the ring. */
  lemma SpacePut(b: seq<Byte>, q: nat, n: nat, stale: SocketBufIovs, data: seq<Byte>)
    requires q < |b| && |data| <= n <= |b| && n > 0
    ensures var v := Pieces(q, n, |b|, stale);
            && v.cnt > 0 && v.first.start == q && |data| <= Count(v)
            && if |data| <= v.first.len then Put(b, q, data) == Splice(b, q, data)
               else v.first.start + v.first.len == |b| && v.second.start == 0 &&
                    Put(b, q, data) == Splice(Splice(b, q, data[..v.first.len]), 0, data[v.first.len..])
  {
  }

  lemma SpliceTwice(b: seq<Byte>, x: seq<Byte>, y: seq<Byte>)
    requires |x| + |y| <= |b|
    ensures Splice(Splice(b, 0, x), |x|, y) == x + y + b[|x| + |y|..]
  {
    var c := Splice(b, 0, x);
    assert c == x + b[|x|..];
    assert c[..|x|] == x && c[|x| + |y|..] == b[|x| + |y|..];
  }

  /** Copies one piece and after it another. */
  method CopyTwo(mem: array<Byte>, first: seq<Byte>, second: seq<Byte>)
    requires |first| + |second| <= mem.Length
    modifies mem
    ensures mem[..] == first + second + old(mem[..])[|first| + |second|..]
  {
    SpliceTwice(mem[..], first, second);
    Copy(mem, 0, first);
    Copy(mem, |first|, second);
  }

  /** What is left between the counters when the head moves on by `c`. */
  lemma Overtaken(head: Counter, tail: Counter, c: Counter)
    ensures var d := Distance(head, tail); Distance(Plus(head, c), tail) == if c <= d then d - c else d + U32 - c
  {
  }

  /** What is between the counters when the tail moves on by `c`. */
  lemma Extended(head: Counter, tail: Counter, c: Counter)
    ensures var d := Distance(head, tail); Distance(head, Plus(tail, c)) == if d + c < U32 then d + c else d + c - U32
  {
  }

  lemma Consumed(b: seq<Byte>, head: Counter, tail: Counter, count: nat)
    requires RingSize(|b|) && count <= Distance(head, tail) <= |b|
    ensures Trunc(count) == count && Distance(Plus(head, count), tail) == Distance(head, tail) - count
    ensures Slice(b, Pos(Plus(head, count), |b|), Distance(head, tail) - count) ==
            Slice(b, Pos(head, |b|), Distance(head, tail))[count..]
  {
    Overtaken(head, tail, count);
    Advance(head, count, |b|);
    SliceSplit(b, Pos(head, |b|), Distance(head, tail), count);
  }

  /** The pieces of the space are all that the pieces of the data are not. */
  lemma SpaceIsRest(head: Counter, tail: Counter, len: nat, stale: SocketBufIovs)
    requires RingSize(len) && Distance(head, tail) <= len
    ensures forall j: nat, w: SocketBufIovs | j < len ::
              Holds(Pieces(Pos(tail, len), len - Distance(head, tail), len, stale), j) <==>
              !Holds(Pieces(Pos(head, len), Distance(head, tail), len, w), j)
  {
    TailPosition(head, tail, len);
    forall j: nat, w: SocketBufIovs | j < len
      ensures Holds(Pieces(Pos(tail, len), len - Distance(head, tail), len, stale), j) <==>
              !Holds(Pieces(Pos(head, len), Distance(head, tail), len, w), j)
    {
      PiecesTile(Pos(head, len), Distance(head, tail), len, w, stale, j);
    }
  }

  /** The tail points after the data. */
  lemma TailPosition(head: Counter, tail: Counter, len: nat)
    requires RingSize(len) && Distance(head, tail) <= len
    ensures Pos(tail, len) == Wrap(Pos(head, len) + Distance(head, tail), len)
  {
    Advance(head, Distance(head, tail), len);
  }

  /** Data put at the tail comes after the data that is there, and leaves it as it is. */
  lemma AppendedAt(b: seq<Byte>, p: nat, d: nat, data: seq<Byte>)
    requires p < |b| && d + |data| <= |b|
    ensures var b' := Put(b, Wrap(p + d, |b|), data);
            Slice(b', p, d + |data|) == Slice(b, p, d) + data && Slice(b', p, d) == Slice(b, p, d)
  {
    var b' := Put(b, Wrap(p + d, |b|), data);
    if data == [] {
      assert b' == b;
    } else {
      PutAfter(b, p, d, data);
      SliceSplit(b', p, d + |data|, d);
    }
  }

  lemma Appended(b: seq<Byte>, head: Counter, tail: Counter, data: seq<Byte>, p: nat, q: nat)
    requires RingSize(|b|) && Distance(head, tail) + |data| <= |b| && p == Pos(head, |b|) && q == Pos(tail, |b|)
    ensures Slice(Put(b, q, data), p, Distance(head, tail) + |data|) == Slice(b, p, Distance(head, tail)) + data
    ensures Slice(Put(b, q, data), p, Distance(head, tail)) == Slice(b, p, Distance(head, tail))
  {
    TailPosition(head, tail, |b|);
    AppendedFrom(b, p, q, Distance(head, tail), data);
  }

  lemma AppendedFrom(b: seq<Byte>, p: nat, q: nat, d: nat, data: seq<Byte>)
    requires p < |b| && d + |data| <= |b| && q == Wrap(p + d, |b|)
    ensures Slice(Put(b, q, data), p, d + |data|) == Slice(b, p, d) + data
    ensures Slice(Put(b, q, data), p, d) == Slice(b, p, d)
  {
    AppendedAt(b, p, d, data);
  }

  /** Writing to the pieces of the space, first piece first, puts the data where moving the tail takes it up:
      after the data that is there, which stays as it is. */
  lemma SpaceAppends(b: seq<Byte>, p: nat, d: nat, stale: SocketBufIovs, data: seq<Byte>)
    requires p < |b| && d < |b| && |data| <= |b| - d
    ensures var v := Pieces(Wrap(p + d, |b|), |b| - d, |b|, stale);
            && Fits(v, b) && |data| <= Count(v)
            && var b' :=
                 if |data| <= v.first.len then Splice(b, v.first.start, data)
                 else Splice(Splice(b, v.first.start, data[..v.first.len]), v.second.start, data[v.first.len..]);
            Slice(b', p, d + |data|) == Slice(b, p, d) + data && Slice(b', p, d) == Slice(b, p, d)
  {
    PiecesHold(b, Wrap(p + d, |b|), |b| - d, stale);
    SpacePut(b, Wrap(p + d, |b|), |b| - d, stale, data);
    AppendedAt(b, p, d, data);
  }

  // Runs of requests, on a queue of at most `len` bytes.

  /** Bytes to write, room for bytes to read, or a number of bytes to take if there are that many. */
  datatype Request = PutBytes(bytes: seq<Byte>) | GetBytes(room: nat) | TakeBytes(count: nat)

  datatype Op = Written(bytes: seq<Byte>) | Got(bytes: seq<Byte>)

  /** What is done for a request: as many bytes are written as there is space for, from the first on, and as many are
      read as there are and there is room for. */
  function Done(len: nat, data: seq<Byte>, request: Request): Op
    requires |data| <= len
  {
    match request
    case PutBytes(bytes) => Written(bytes[..Min(|bytes|, len - |data|)])
    case GetBytes(room) => Got(data[..Min(room, |data|)])
    case TakeBytes(count) => Got(if count <= |data| then data[..count] else [])
  }

  /** The data of the queue after an operation. */
  function Next(data: seq<Byte>, op: Op): seq<Byte> {
    match op
    case Written(bytes) => data + bytes
    case Got(bytes) => if |bytes| <= |data| then data[|bytes|..] else []
  }

  /** What the queue holds after the requests. */
  function Held(len: nat, requests: seq<Request>): (data: seq<Byte>)
    ensures |data| <= len
  {
    if requests == [] then []
    else
      var data := Held(len, requests[..|requests| - 1]);
      Next(data, Done(len, data, requests[|requests| - 1]))
  }

  /** What the queue does for the requests. */
  function Ops(len: nat, requests: seq<Request>): (ops: seq<Op>)
    ensures |ops| == |requests|
  {
    if requests == [] then []
    else
      var front, last := requests[..|requests| - 1], requests[|requests| - 1];
      Ops(len, front) + [Done(len, Held(len, front), last)]
  }

  function AllWritten(ops: seq<Op>): seq<Byte> {
    if ops == [] then []
    else AllWritten(ops[..|ops| - 1]) + if ops[|ops| - 1].Written? then ops[|ops| - 1].bytes else []
  }

  function AllRead(ops: seq<Op>): seq<Byte> {
    if ops == [] then []
    else AllRead(ops[..|ops| - 1]) + if ops[|ops| - 1].Got? then ops[|ops| - 1].bytes else []
  }

  /** In every run the bytes read, followed by the bytes still there, are the bytes written, in order. */
  lemma {:induction false} InOrder(len: nat, requests: seq<Request>)
    ensures AllRead(Ops(len, requests)) + Held(len, requests) == AllWritten(Ops(len, requests))
    decreases |requests|
  {
    if requests != [] {
      var front, last := requests[..|requests| - 1], requests[|requests| - 1];
      var ops, data := Ops(len, front), Held(len, front);
      InOrder(len, front);
      OpsStep(ops, Done(len, data, last));
      DoneStep(len, data, last);
      InOrderStep(AllRead(ops), data, Next(data, Done(len, data, last)), Done(len, data, last));
    }
  }

  lemma DoneStep(len: nat, data: seq<Byte>, request: Request)
    requires |data| <= len
    ensures var op := Done(len, data, request);
            if op.Written? then Next(data, op) == data + op.bytes else data == op.bytes + Next(data, op)
  {
  }

  lemma OpsStep(ops: seq<Op>, op: Op)
    ensures AllRead(ops + [op]) == AllRead(ops) + if op.Got? then op.bytes else []
    ensures AllWritten(ops + [op]) == AllWritten(ops) + if op.Written? then op.bytes else []
  {
    assert (ops + [op])[..|ops|] == ops;
  }

  lemma InOrderStep(read: seq<Byte>, data: seq<Byte>, data': seq<Byte>, op: Op)
    requires if op.Written? then data' == data + op.bytes else data == op.bytes + data'
    ensures (read + if op.Got? then op.bytes else []) + data' == (read + data) + if op.Written? then op.bytes else []
  {
    match op
    case Written(bytes) => assert read + (data + bytes) == (read + data) + bytes;
    case Got(bytes) => assert (read + bytes) + data' == read + (bytes + data');
  }

  /** The request is empty, and finds the queue as an empty request must not: a write nothing there, a read no space. */
  predicate Upsets(len: nat, data: seq<Byte>, request: Request) {
    match request
    case PutBytes(bytes) => bytes == [] && data == []
    case GetBytes(room) => room == 0 && |data| == len
    case TakeBytes(count) => count == 0 && |data| == len
  }

  ghost predicate NoneUpsets(len: nat, requests: seq<Request>) {
    forall i | 0 <= i < |requests| :: !Upsets(len, Held(len, requests[..i]), requests[i])
  }

  /** Requests that are not empty upset nothing. */
  lemma NotEmptyNotUpset(len: nat, requests: seq<Request>)
    requires forall i | 0 <= i < |requests| ::
               requests[i] != PutBytes([]) && requests[i] != GetBytes(0) && requests[i] != TakeBytes(0)
    ensures NoneUpsets(len, requests)
  {
  }

  class RingBuf {
    const buf: array<Byte>
    var head: Counter
    var tail: Counter
    var waitingRead: bool
    var waitingWrite: bool

    ghost predicate Valid()
      reads this
    {
      RingSize(buf.Length) && Distance(head, tail) <= buf.Length
    }

    /** The bytes written and not yet read. */
    ghost function Data(): seq<Byte>
      requires Valid()
      reads this, buf
    {
      Slice(buf[..], Pos(head, buf.Length), Distance(head, tail))
    }

    /** A reader is waiting exactly if there is nothing to read, a writer exactly if there is no space. */
    ghost predicate FlagsExact()
      requires Valid()
      reads this
    {
      (waitingRead <==> Distance(head, tail) == 0) && (waitingWrite <==> Distance(head, tail) == buf.Length)
    }

    constructor (len: nat)
      requires RingSize(len)
      ensures Valid() && fresh(buf) && buf.Length == len && Data() == [] && FlagsExact()
    {
      buf := new Byte[len];
      head, tail, waitingRead, waitingWrite := 0, 0, true, false;
    }

    /** Moves the head past `count` bytes; reports whether a writer was waiting. Nothing is checked: with more bytes
        than there are the counters overtake each other, and claim the bytes from the head round to the tail. */
    method Consume(count: nat) returns (trigger: bool)
      requires Valid()
      modifies this`head, this`waitingRead, this`waitingWrite
      ensures trigger == old(waitingWrite) && head == Plus(old(head), Trunc(count))
      ensures !waitingWrite && (waitingRead <==> old(waitingRead) || Trunc(count) == |old(Data())|)
      ensures Valid() <==> Trunc(count) <= |old(Data())| || |old(Data())| + U32 - Trunc(count) <= buf.Length
      ensures count <= |old(Data())| ==>
                && Valid() && Data() == old(Data())[count..]
                && (old(FlagsExact()) ==> (FlagsExact() <==> !(count == 0 && |old(Data())| == buf.Length)))
    {
      Overtaken(head, tail, Trunc(count));
      if count <= Distance(head, tail) {
        Consumed(buf[..], head, tail, count);
      }
      head := Plus(head, Trunc(count));
      if Distance(head, tail) == 0 {
        waitingRead := true;
      }
      trigger := waitingWrite;
      waitingWrite := false;
    }

    /** `data` has been put after the data that is there. */
    ghost predicate Follows(data: seq<Byte>)
      requires Valid()
      reads this, buf
    {
      && |Data()| + |data| <= buf.Length
      && Slice(buf[..], Pos(head, buf.Length), |Data()| + |data|) == Data() + data
    }

    /** Moves the tail past `count` bytes; reports whether a reader was waiting. Nothing is checked. */
    method Produce(count: nat, ghost data: seq<Byte>) returns (trigger: bool)
      requires Valid()
      modifies this`tail, this`waitingRead, this`waitingWrite
      ensures trigger == old(waitingRead) && tail == Plus(old(tail), Trunc(count))
      ensures !waitingRead
      ensures waitingWrite <==> old(waitingWrite) || |old(Data())| + Trunc(count) in {buf.Length, buf.Length + U32}
      ensures Valid() <==> |old(Data())| + Trunc(count) <= buf.Length || |old(Data())| + Trunc(count) >= U32
      ensures |data| == count && old(Follows(data)) ==>
                && Valid() && Data() == old(Data()) + data
                && (old(FlagsExact()) ==> (FlagsExact() <==> !(count == 0 && old(Data()) == [])))
    {
      Extended(head, tail, Trunc(count));
      if count < U32 {
        assert Trunc(count) == count;
      }
      tail := Plus(tail, Trunc(count));
      if buf.Length - Distance(head, tail) == 0 {
        waitingWrite := true;
      }
      trigger := waitingRead;
      waitingRead := false;
    }

    method ConsumeWithCheck(count: nat) returns (r: Result<bool>)
      requires Valid()
      modifies this`head, this`waitingRead, this`waitingWrite
      ensures Valid() && (r.Ok? <==> count <= |old(Data())|)
      ensures r.Ok? ==> Data() == old(Data())[count..] && r.value == old(waitingWrite)
      ensures r.Ok? && old(FlagsExact()) ==> (FlagsExact() <==> !(count == 0 && |old(Data())| == buf.Length))
      ensures r.Err? ==>
                && r.error == InvalidInput && head == old(head)
                && waitingRead == old(waitingRead) && waitingWrite == old(waitingWrite)
    {
      if Distance(head, tail) < count {
        return Err(InvalidInput);
      }
      var trigger := Consume(count);
      r := Ok(trigger);
    }

    /** Reads as many bytes as there are, at most as many as `out` has room for. */
    method Read(out: array<Byte>) returns (waiting: bool, n: nat)
      requires Valid() && out != buf
      modifies this`head, this`waitingRead, this`waitingWrite, out
      ensures Valid() && n == if |old(Data())| > out.Length then out.Length else |old(Data())|
      ensures out[..] == old(Data())[..n] + old(out[..])[n..] && Data() == old(Data())[n..]
      ensures waiting == old(waitingWrite) && (old(FlagsExact()) ==> (waiting <==> |old(Data())| == buf.Length))
      ensures old(FlagsExact()) ==> (FlagsExact() <==> !(out.Length == 0 && |old(Data())| == buf.Length))
    {
      n := Distance(head, tail);
      if n > out.Length {
        n := out.Length;
      }
      ghost var all := Data();
      SliceSplit(buf[..], Pos(head, buf.Length), Distance(head, tail), n);
      CopyOut(Pos(head, buf.Length), n, out);
      assert out[..] == all[..n] + old(out[..])[n..];
      waiting := Consume(n);
    }

    /** Copies `n` bytes of the ring, in one piece or in two. */
    method CopyOut(readpos: nat, n: nat, out: array<Byte>)
      requires readpos < buf.Length && n <= buf.Length && n <= out.Length && out != buf
      modifies out
      ensures out[..] == Slice(buf[..], readpos, n) + old(out[..])[n..]
    {
      var toEnd := buf.Length - readpos;
      SlicePieces(buf[..], readpos, n);
      if toEnd < n {
        CopyTwo(out, buf[readpos..], buf[..n - toEnd]);
        assert Slice(buf[..], readpos, n) == buf[readpos..] + buf[..n - toEnd];
      } else {
        Copy(out, 0, buf[readpos..readpos + n]);
      }
    }

    /** Writes as many bytes of `data` as there is space for. */
    method Write(data: seq<Byte>) returns (trigger: bool, n: nat)
      requires Valid()
      modifies this`tail, this`waitingRead, this`waitingWrite, buf
      ensures Valid() && n == if buf.Length - |old(Data())| > |data| then |data| else buf.Length - |old(Data())|
      ensures Data() == old(Data()) + data[..n]
      ensures trigger == old(waitingRead) && (old(FlagsExact()) ==> (trigger <==> old(Data()) == []))
      ensures old(FlagsExact()) ==> (FlagsExact() <==> !(data == [] && old(Data()) == []))
    {
      n := buf.Length - Distance(head, tail);
      if n > |data| {
        n := |data|;
      }
      trigger := Append(data[..n]);
    }

    /** Writes bytes there is space for. */
    method Append(data: seq<Byte>) returns (trigger: bool)
      requires Valid() && |Data()| + |data| <= buf.Length
      modifies this`tail, this`waitingRead, this`waitingWrite, buf
      ensures Valid() && Data() == old(Data()) + data && trigger == old(waitingRead)
      ensures old(FlagsExact()) ==> (FlagsExact() <==> !(data == [] && old(Data()) == []))
    {
      Appended(buf[..], head, tail, data, Pos(head, buf.Length), Pos(tail, buf.Length));
      CopyIn(Pos(tail, buf.Length), data);
      trigger := Produce(|data|, data);
    }

    /** Copies bytes into the ring, in one piece or in two. */
    method CopyIn(writePos: nat, data: seq<Byte>)
      requires writePos < buf.Length && |data| <= buf.Length
      modifies buf
      ensures buf[..] == Put(old(buf[..]), writePos, data)
    {
      var toEnd := buf.Length - writePos;
      PutSplices(buf[..], writePos, data);
      if toEnd < |data| {
        Copy(buf, writePos, data[..toEnd]);
        Copy(buf, 0, data[toEnd..]);
      } else {
        Copy(buf, writePos, data);
      }
    }

    /** The data as pieces of the buffer. */
    method PrepareDataIovs(stale: SocketBufIovs) returns (v: SocketBufIovs)
      requires Valid()
      ensures v == Pieces(Pos(head, buf.Length), |Data()|, buf.Length, stale) && Fits(v, buf[..])
      ensures Bytes(v, buf[..]) == Data()
    {
      var available := Distance(head, tail);
      PiecesHold(buf[..], Pos(head, buf.Length), available, stale);
      if available == 0 {
        return stale.(cnt := 0);
      }
      var readPos := Pos(head, buf.Length);
      var toEnd := buf.Length - readPos;
      if toEnd < available {
        v := SocketBufIovs(IoVec(readPos, toEnd), IoVec(0, available - toEnd), 2);
      } else {
        v := SocketBufIovs(IoVec(readPos, available), stale.second, 1);
      }
    }

    /** The space as pieces of the buffer: the bytes of the buffer that are not in the pieces of the data. */
    method PrepareSpaceIovs(stale: SocketBufIovs) returns (v: SocketBufIovs)
      requires Valid()
      ensures v == Pieces(Pos(tail, buf.Length), buf.Length - |Data()|, buf.Length, stale) && Fits(v, buf[..])
      ensures forall j: nat, w: SocketBufIovs | j < buf.Length ::
                Holds(v, j) <==> !Holds(Pieces(Pos(head, buf.Length), |Data()|, buf.Length, w), j)
    {
      var available := Distance(head, tail);
      SpaceIsRest(head, tail, buf.Length, stale);
      PiecesHold(buf[..], Pos(tail, buf.Length), buf.Length - available, stale);
      if available == buf.Length {
        return stale.(cnt := 0);
      }
      var writePos, writeSize := Pos(tail, buf.Length), buf.Length - available;
      var toEnd := buf.Length - writePos;
      if toEnd < writeSize {
        v := SocketBufIovs(IoVec(writePos, toEnd), IoVec(0, writeSize - toEnd), 2);
      } else {
        v := SocketBufIovs(IoVec(writePos, writeSize), stale.second, 1);
      }
    }
  }

  method Serve(ring: RingBuf, request: Request) returns (op: Op)
    requires ring.Valid()
    modifies ring`head, ring`tail, ring`waitingRead, ring`waitingWrite, ring.buf
    ensures ring.Valid() && op == Done(ring.buf.Length, old(ring.Data()), request)
    ensures ring.Data() == Next(old(ring.Data()), op)
    ensures old(ring.FlagsExact()) && !Upsets(ring.buf.Length, old(ring.Data()), request) ==> ring.FlagsExact()
  {
    match request
    case PutBytes(bytes) =>
      var trigger, n := ring.Write(bytes);
      op := Written(bytes[..n]);
    case GetBytes(room) =>
      op := Fetch(ring, room);
    case TakeBytes(count) =>
      op := Take(ring, count);
  }

  /** Reads into room for `room` bytes. */
  method Fetch(ring: RingBuf, room: nat) returns (op: Op)
    requires ring.Valid()
    modifies ring`head, ring`waitingRead, ring`waitingWrite
    ensures ring.Valid() && op == Done(ring.buf.Length, old(ring.Data()), GetBytes(room))
    ensures ring.Data() == Next(old(ring.Data()), op)
    ensures old(ring.FlagsExact()) && !Upsets(ring.buf.Length, old(ring.Data()), GetBytes(room)) ==> ring.FlagsExact()
  {
    var out := new Byte[room];
    ghost var data, rest := ring.Data(), out[..];
    var waiting, n := ring.Read(out);
    FrontOf(data[..n], rest[n..], n);
    op := Got(out[..][..n]);
  }

  lemma FrontOf(front: seq<Byte>, rest: seq<Byte>, n: nat)
    requires |front| == n
    ensures (front + rest)[..n] == front
  {
  }

  /** Takes `count` bytes, or none if there are not that many, by the pieces of the data. */
  method Take(ring: RingBuf, count: nat) returns (op: Op)
    requires ring.Valid()
    modifies ring`head, ring`waitingRead, ring`waitingWrite
    ensures ring.Valid() && op == Done(ring.buf.Length, old(ring.Data()), TakeBytes(count))
    ensures ring.Data() == Next(old(ring.Data()), op)
    ensures old(ring.FlagsExact()) && !Upsets(ring.buf.Length, old(ring.Data()), TakeBytes(count)) ==> ring.FlagsExact()
  {
    var v := ring.PrepareDataIovs(SocketBufIovs(IoVec(0, 0), IoVec(0, 0), 0));
    var data := Bytes(v, ring.buf[..]);
    var r := ring.ConsumeWithCheck(count);
    op := Got(if r.Ok? then data[..count] else []);
  }

  lemma HeldStep(len: nat, requests: seq<Request>, n: nat)
    requires n < |requests|
    ensures var data := Held(len, requests[..n]);
            && Held(len, requests[..n + 1]) == Next(data, Done(len, data, requests[n]))
            && Ops(len, requests[..n + 1]) == Ops(len, requests[..n]) + [Done(len, data, requests[n])]
  {
    assert requests[..n + 1][..n] == requests[..n];
  }

  /** A new ring put through any requests does for each what a queue of as many bytes does, and ends with the same
      data: the bytes read, followed by those still there, are the bytes written. If no empty request upsets them, the
      flags are exact at the end. */
  method Drive(len: nat, requests: seq<Request>) returns (ring: RingBuf, ops: seq<Op>)
    requires RingSize(len)
    ensures fresh(ring) && ring.Valid() && ops == Ops(len, requests) && ring.Data() == Held(len, requests)
    ensures AllRead(ops) + ring.Data() == AllWritten(ops)
    ensures NoneUpsets(len, requests) ==> ring.FlagsExact()
  {
    ring := new RingBuf(len);
    ops := [];
    for n := 0 to |requests|
      invariant fresh(ring) && fresh(ring.buf) && ring.Valid() && ring.buf.Length == len
      invariant ops == Ops(len, requests[..n]) && ring.Data() == Held(len, requests[..n])
      invariant NoneUpsets(len, requests) ==> ring.FlagsExact()
    {
      HeldStep(len, requests, n);
      var op := Serve(ring, requests[n]);
      ops := ops + [op];
    }
    assert requests[..|requests|] == requests;
    InOrder(len, requests);
  }
}
