/** The receiving side of a QUIC stream: buffers read through a cursor, a copying read over a queue of them, and the
    bytes acknowledged to the transport as the buffers are dropped. */
module RecvStreams {
  import opened Types

  // ---------- one received buffer ----------

  function Flatten(buffers: seq<seq<byte>>): seq<byte> {
    if buffers == [] then [] else buffers[0] + Flatten(buffers[1..])
  }

  lemma {:induction false} FlattenSplit(buffers: seq<seq<byte>>, n: nat)
    requires n <= |buffers|
    ensures Flatten(buffers) == Flatten(buffers[..n]) + Flatten(buffers[n..])
  {
    if n == 0 {
      assert buffers[0..] == buffers;
    } else {
      FlattenSplit(buffers[1..], n - 1);
      assert buffers[..n][1..] == buffers[1..][..n - 1] && buffers[1..][n - 1..] == buffers[n..];
    }
  }

  /** What a cursor at byte `inBuffer` of buffer `cursor` has still to read. */
  function Rest(buffers: seq<seq<byte>>, cursor: nat, inBuffer: nat): seq<byte>
    requires cursor <= |buffers| && inBuffer <= if cursor < |buffers| then |buffers[cursor]| else 0
  {
    if cursor == |buffers| then [] else buffers[cursor][inBuffer..] + Flatten(buffers[cursor + 1..])
  }

  lemma RestFromStart(buffers: seq<seq<byte>>, cursor: nat)
    requires cursor <= |buffers|
    ensures Rest(buffers, cursor, 0) == Flatten(buffers[cursor..])
  {
    if cursor < |buffers| {
      assert buffers[cursor..][1..] == buffers[cursor + 1..];
    }
  }

  function Length(buffers: seq<seq<byte>>): nat {
    if buffers == [] then 0 else |buffers[0]| + Length(buffers[1..])
  }

  lemma {:induction false} LengthOfFlatten(buffers: seq<seq<byte>>)
    ensures Length(buffers) == |Flatten(buffers)|
  {
    if buffers != [] {
      LengthOfFlatten(buffers[1..]);
    }
  }

  class StreamRecvBuffer {
    const buffers: seq<seq<byte>>
    const offset: nat
    const len: nat
    const fin: bool
    var readCursor: nat
    var readCursorInBuffer: nat

    predicate Valid()
      reads this
    {
      && len == Length(buffers)
      && readCursor <= |buffers|
      && readCursorInBuffer <= if readCursor < |buffers| then |buffers[readCursor]| else 0
    }

    function BuffersLeft(): nat
      requires Valid()
      reads this
    {
      |buffers| - readCursor
    }

    /** The bytes not yet read, in order. */
    function Remaining(): seq<byte>
      requires Valid()
      reads this
    {
      Rest(buffers, readCursor, readCursorInBuffer)
    }

    constructor (offset: nat, buffers: seq<seq<byte>>, fin: bool)
      ensures Valid() && Remaining() == Flatten(buffers)
      ensures this.buffers == buffers && this.offset == offset && this.fin == fin && len == |Flatten(buffers)|
    {
      this.buffers, this.offset, this.fin, this.len := buffers, offset, fin, Length(buffers);
      readCursor, readCursorInBuffer := 0, 0;
      new;
      RestFromStart(buffers, 0);
      LengthOfFlatten(buffers);
      assert buffers[0..] == buffers;
    }

    /** What remains to be read. */
    method Len() returns (n: nat)
      requires Valid()
      ensures n == |Remaining()|
    {
      if |buffers| <= readCursor {
        return 0;
      }
      FlattenSplit(buffers, readCursor);
      LengthOfFlatten(buffers);
      LengthOfFlatten(buffers[..readCursor]);
      assert buffers[readCursor..][1..] == buffers[readCursor + 1..];
      return len - Length(buffers[..readCursor]) - readCursorInBuffer;
    }

    /** Reads the rest of the present buffer, up to `size` bytes of it. */
    method GetBytesUptoSize(size: nat) returns (slice: Option<seq<byte>>)
      requires Valid()
      modifies this
      ensures Valid()
      ensures slice.None? <==> old(readCursor) == |buffers|
      ensures slice.None? ==> old(Remaining()) == Remaining() == []
      ensures slice.Some? ==>
                && |slice.value| == Min(|buffers[old(readCursor)]| - old(readCursorInBuffer), size)
                && old(Remaining()) == slice.value + Remaining()
      ensures slice.None? ==> unchanged(this)
      ensures slice.Some? ==> BuffersLeft() <= old(BuffersLeft()) && (BuffersLeft() < old(BuffersLeft()) || |slice.value| == size)
    {
      if |buffers| <= readCursor {
        return None;
      }
      var buffer := buffers[readCursor];
      var n := Min(|buffer| - readCursorInBuffer, size);
      slice := Some(buffer[readCursorInBuffer..readCursorInBuffer + n]);
      readCursorInBuffer := readCursorInBuffer + n;
      if readCursorInBuffer >= |buffer| {
        readCursor := readCursor + 1;
        readCursorInBuffer := 0;
        RestFromStart(buffers, readCursor);
      }
    }

    method Advance(count: nat)
      requires Valid() && count <= |Remaining()|
      modifies this
      ensures Valid() && Remaining() == old(Remaining())[count..]
    {
      hide Rest, Skips;
      ghost var before := Remaining();
      var left: nat := count;
      SkipsNothing(before);
      for i := readCursor to |buffers|
        invariant Valid() && i == readCursor
        invariant left <= count && Skips(before, count - left, Remaining())
      {
        if left == 0 {
          break;
        }
        var buffer := buffers[i];
        var remaining := |buffer| - readCursorInBuffer;
        SkipInRest(buffers, i, readCursorInBuffer, left);
        if left < remaining {
          SkipsMore(before, count - left, buffer[readCursorInBuffer..readCursorInBuffer + left],
                    Rest(buffers, i, readCursorInBuffer + left));
          readCursorInBuffer := readCursorInBuffer + left;
          left := 0;
          break;
        } else {
          SkipsMore(before, count - left, buffer[readCursorInBuffer..], Rest(buffers, i + 1, 0));
          readCursor := readCursor + 1;
          readCursorInBuffer := 0;
          left := left - remaining;
        }
      }
      if readCursor == |buffers| {
        NothingLeft(buffers);
      }
      SkipsAll(before, count - left, Remaining());
    }
  }

  /** `rest` is what follows the first n bytes. */
  predicate Skips(data: seq<byte>, n: nat, rest: seq<byte>) {
    n <= |data| && data[n..] == rest
  }

  lemma SkipsNothing(data: seq<byte>)
    ensures Skips(data, 0, data)
  {
  }

  lemma SkipsMore(data: seq<byte>, n: nat, slice: seq<byte>, rest: seq<byte>)
    requires Skips(data, n, slice + rest)
    ensures Skips(data, n + |slice|, rest)
  {
  }

  lemma SkipsAll(data: seq<byte>, n: nat, rest: seq<byte>)
    requires Skips(data, n, rest)
    ensures |data| == n + |rest| && data[n..] == rest
  {
  }

  /** Skipping within the present buffer, and to the next one. */
  lemma SkipInRest(buffers: seq<seq<byte>>, cursor: nat, inBuffer: nat, count: nat)
    requires cursor < |buffers| && inBuffer <= |buffers[cursor]|
    ensures inBuffer + count <= |buffers[cursor]| ==>
              Rest(buffers, cursor, inBuffer) == buffers[cursor][inBuffer..inBuffer + count] + Rest(buffers, cursor, inBuffer + count)
    ensures Rest(buffers, cursor, inBuffer) == buffers[cursor][inBuffer..] + Rest(buffers, cursor + 1, 0)
  {
    RestFromStart(buffers, cursor + 1);
  }

  lemma NothingLeft(buffers: seq<seq<byte>>)
    ensures Rest(buffers, |buffers|, 0) == []
  {
  }

  // ---------- sets of ranges ----------

  /** The bytes from `start` to `end`, without `end`. */
  datatype Range = Range(start: nat, end: nat)

  /** As a range set keeps its ranges: none empty, apart from each other, in order. */
  predicate Coalesced(rs: seq<Range>) {
    && (forall i | 0 <= i < |rs| :: rs[i].start < rs[i].end)
    && (forall i, j | 0 <= i < j < |rs| :: rs[i].end < rs[j].start)
  }

  predicate Covers(rs: seq<Range>, x: nat) {
    exists r :: r in rs && r.start <= x < r.end
  }

  function Insert(rs: seq<Range>, r: Range): seq<Range> {
    if rs == [] || r.end < rs[0].start then [r] + rs
    else if rs[0].end < r.start then [rs[0]] + Insert(rs[1..], r)
    else Insert(rs[1..], Range(Min(rs[0].start, r.start), Max(rs[0].end, r.end)))
  }

  lemma CoalescedCons(first: Range, rest: seq<Range>)
    ensures Coalesced([first] + rest) <==>
              Coalesced(rest) && first.start < first.end && forall q | q in rest :: first.end < q.start
  {
    var rs := [first] + rest;
    assert rs[1..] == rest && rs[0] == first;
    if Coalesced(rs) {
      forall q | q in rest ensures first.end < q.start {
        var i :| 0 <= i < |rest| && rest[i] == q;
        assert rs[i + 1] == q;
      }
      assert forall i | 0 <= i < |rest| :: rest[i] == rs[i + 1];
    }
  }

  lemma {:induction false} InsertKeepsCoalesced(rs: seq<Range>, r: Range, floor: nat)
    requires Coalesced(rs) && r.start < r.end && floor <= r.start && forall q | q in rs :: floor <= q.start
    ensures Coalesced(Insert(rs, r)) && forall q | q in Insert(rs, r) :: floor <= q.start
  {
    hide Coalesced;
    if rs == [] {
      CoalescedCons(r, []);
    } else {
      var first, rest := rs[0], rs[1..];
      assert rs == [first] + rest;
      CoalescedCons(first, rest);
      if r.end < first.start {
        CoalescedCons(r, rs);
      } else if first.end < r.start {
        InsertKeepsCoalesced(rest, r, first.end + 1);
        CoalescedCons(first, Insert(rest, r));
      } else {
        InsertKeepsCoalesced(rest, Range(Min(first.start, r.start), Max(first.end, r.end)), floor);
      }
    }
  }

  lemma {:induction false} InsertCovers(rs: seq<Range>, r: Range, x: nat)
    requires Coalesced(rs) && r.start < r.end
    ensures Covers(Insert(rs, r), x) <==> Covers(rs, x) || r.start <= x < r.end
  {
    if rs == [] || r.end < rs[0].start {
      assert r in [r] + rs;
    } else {
      var first, rest := rs[0], rs[1..];
      assert rs == [first] + rest;
      if first.end < r.start {
        InsertCovers(rest, r, x);
      } else {
        InsertCovers(rest, Range(Min(first.start, r.start), Max(first.end, r.end)), x);
      }
    }
  }

  /** The length of the run of bytes from 0 on. */
  function PrefixEnd(rs: seq<Range>): nat {
    if rs != [] && rs[0].start == 0 then rs[0].end else 0
  }

  /** `n` is the length of the longest prefix of the stream of which every byte is covered. */
  ghost predicate IsLongestPrefix(rs: seq<Range>, n: nat) {
    (forall x: nat | x < n :: Covers(rs, x)) && !Covers(rs, n)
  }

  lemma PrefixEndIsLongest(rs: seq<Range>)
    requires Coalesced(rs)
    ensures IsLongestPrefix(rs, PrefixEnd(rs))
  {
    var n := PrefixEnd(rs);
    forall x: nat | x < n ensures Covers(rs, x) {
      assert rs[0] in rs;
    }
    forall r | r in rs ensures !(r.start <= n < r.end) {
      var i :| 0 <= i < |rs| && rs[i] == r;
    }
  }

  // ---------- acknowledging ----------

  datatype Acks = Acks(ranges: seq<Range>, cursor: nat)

  /** A buffer as it is dropped: where it was in the stream, whether all of it had been read, and whether it was
      the last one. */
  datatype Dropped = Dropped(range: Range, isEmpty: bool, fin: bool)

  function AfterDrop(a: Acks, d: Dropped): (Acks, Option<nat>) {
    var ranges := if d.range.start < d.range.end then Insert(a.ranges, d.range) else a.ranges;
    if ranges == [] then (Acks(ranges, a.cursor), if d.isEmpty && d.fin then Some(0) else None)
    else if ranges[0].start == 0 && a.cursor < ranges[0].end then
      (Acks(ranges, ranges[0].end), Some(ranges[0].end - a.cursor))
    else if ranges[0].start == 0 && a.cursor == ranges[0].end && d.range.start == ranges[0].end && d.isEmpty && d.fin then
      (Acks(ranges, a.cursor), Some(0))
    else (Acks(ranges, a.cursor), None)
  }

  predicate AcksValid(a: Acks) {
    Coalesced(a.ranges) && a.cursor == PrefixEnd(a.ranges)
  }

  const NO_ACKS := Acks([], 0)

  lemma {:induction false} InsertGrowsPrefix(rs: seq<Range>, r: Range)
    requires Coalesced(rs) && r.start < r.end
    ensures PrefixEnd(rs) <= PrefixEnd(Insert(rs, r))
    ensures Insert(rs, r) != []
  {
    InsertKeepsCoalesced(rs, r, 0);
    PrefixEndIsLongest(rs);
    PrefixEndIsLongest(Insert(rs, r));
    InsertCovers(rs, r, PrefixEnd(Insert(rs, r)));
    assert Insert(rs, r) != [] by {
      InsertCovers(rs, r, r.start);
    }
  }

  /** Dropping a buffer acknowledges exactly what the longest completed prefix gained, if it gained anything; and 0
      for an empty last buffer, when nothing was completed or when all before it was. */
  lemma DropAcknowledges(a: Acks, d: Dropped)
    requires AcksValid(a) && d.range.start <= d.range.end
    ensures var (b, ack) := AfterDrop(a, d);
            && AcksValid(b) && a.cursor <= b.cursor
            && (forall x: nat :: Covers(b.ranges, x) <==> Covers(a.ranges, x) || d.range.start <= x < d.range.end)
            && (ack.Some? ==> ack.value == b.cursor - a.cursor)
            && (ack.None? ==> b.cursor == a.cursor)
            && (ack == Some(0) <==>
                  && d.isEmpty && d.fin && d.range.start == d.range.end
                  && (b.ranges == [] || (b.ranges[0].start == 0 && d.range.start == b.cursor)))
  {
    hide Insert;
    if d.range.start < d.range.end {
      InsertKeepsCoalesced(a.ranges, d.range, 0);
      InsertGrowsPrefix(a.ranges, d.range);
      forall x: nat
        ensures Covers(Insert(a.ranges, d.range), x) <==> Covers(a.ranges, x) || d.range.start <= x < d.range.end
      {
        InsertCovers(a.ranges, d.range, x);
      }
      PrefixEndIsLongest(Insert(a.ranges, d.range));
    }
  }

  /** All buffers dropped so far, first to last. */
  function AfterDrops(ds: seq<Dropped>): Acks {
    if ds == [] then NO_ACKS else AfterDrop(AfterDrops(ds[..|ds| - 1]), ds[|ds| - 1]).0
  }

  /** The total passed to the transport. */
  function Acknowledged(ds: seq<Dropped>): nat {
    if ds == [] then 0
    else
      var ack := AfterDrop(AfterDrops(ds[..|ds| - 1]), ds[|ds| - 1]).1;
      Acknowledged(ds[..|ds| - 1]) + if ack.Some? then ack.value else 0
  }

  predicate Sound(ds: seq<Dropped>) {
    forall d | d in ds :: d.range.start <= d.range.end
  }

  predicate DroppedAt(ds: seq<Dropped>, x: nat) {
    exists d :: d in ds && d.range.start <= x < d.range.end
  }

  lemma {:induction false} DropsCover(ds: seq<Dropped>)
    requires Sound(ds)
    ensures AcksValid(AfterDrops(ds)) && Acknowledged(ds) == AfterDrops(ds).cursor
    ensures forall x: nat :: Covers(AfterDrops(ds).ranges, x) <==> DroppedAt(ds, x)
  {
    if ds != [] {
      var init, last := ds[..|ds| - 1], ds[|ds| - 1];
      assert ds == init + [last];
      DropsCover(init);
      DropAcknowledges(AfterDrops(init), last);
    }
  }

  /** Whatever buffers are dropped, in whatever order, the total acknowledged is the length of the longest prefix of
      the stream made of dropped bytes: no byte is counted twice, none before the ones in front of it. */
  lemma TotalIsTheLongestPrefix(ds: seq<Dropped>)
    requires Sound(ds)
    ensures forall x: nat | x < Acknowledged(ds) :: DroppedAt(ds, x)
    ensures !DroppedAt(ds, Acknowledged(ds))
  {
    DropsCover(ds);
    PrefixEndIsLongest(AfterDrops(ds).ranges);
  }

  /** The order in which buffers are dropped does not matter to the total. */
  lemma OrderDoesNotMatter(ds: seq<Dropped>, es: seq<Dropped>)
    requires Sound(ds) && multiset(ds) == multiset(es)
    ensures Acknowledged(ds) == Acknowledged(es)
  {
    assert forall d :: d in ds <==> d in multiset(ds);
    assert forall d :: d in es <==> d in multiset(es);
    TotalIsTheLongestPrefix(ds);
    TotalIsTheLongestPrefix(es);
    assert DroppedAt(es, Acknowledged(ds)) ==> DroppedAt(ds, Acknowledged(ds));
    assert DroppedAt(ds, Acknowledged(es)) ==> DroppedAt(es, Acknowledged(es));
  }

  // ---------- the stream ----------

  datatype RecvState = Closed | Start | StartComplete | Shutdown | ShutdownComplete

  /** Errors and their codes, as far as a read tells them apart. */
  datatype ReadError = ReadClosed | ReadReset(code: nat) | ConnectionLost(reason: nat)

  /** What a poll answers. */
  datatype Answer = NotReady | Read(n: nat) | Failed(error: ReadError)

  /** What a read comes to: bytes, or that the stream is over (with the bytes read before that), or nothing yet. */
  datatype ReadStatus = Readable(bytes: nat) | Finished(read: Option<nat>) | Blocked(read: Option<nat>)

  /** What a queue of buffers has still to give. */
  function Pending(queue: seq<StreamRecvBuffer>): seq<byte>
    requires forall b | b in queue :: b.Valid()
    reads queue
  {
    if queue == [] then [] else queue[0].Remaining() + Pending(queue[1..])
  }

  lemma {:induction false} PendingOfAppend(queue: seq<StreamRecvBuffer>, last: StreamRecvBuffer)
    requires last.Valid() && forall b | b in queue :: b.Valid()
    ensures Pending(queue + [last]) == Pending(queue) + last.Remaining()
  {
    if queue == [] {
      assert queue + [last] == [last];
    } else {
      assert (queue + [last])[1..] == queue[1..] + [last];
      PendingOfAppend(queue[1..], last);
    }
  }

  predicate InRangeOf(queue: seq<StreamRecvBuffer>, x: nat) {
    exists b :: b in queue && b.offset <= x < b.offset + b.len
  }

  predicate Distinct(queue: seq<StreamRecvBuffer>) {
    forall i, j | 0 <= i < j < |queue| :: queue[i] != queue[j]
  }

  /** A buffer that held `was` now starts with `got`, the part of `pending` that is not left. */
  predicate Filled(cells: seq<byte>, was: seq<byte>, got: seq<byte>, pending: seq<byte>, left: seq<byte>) {
    |got| <= |was| && cells == got + was[|got|..] && pending == got + left
  }

  lemma NothingFilled(was: seq<byte>, pending: seq<byte>)
    ensures Filled(was, was, [], pending, pending)
  {
  }

  lemma MoreFilled(was: seq<byte>, got: seq<byte>, cells: seq<byte>, slice: seq<byte>, pending: seq<byte>, left: seq<byte>)
    requires Filled(cells, was, got, pending, slice + left) && |got| + |slice| <= |cells|
    ensures |cells| == |was|
    ensures Filled(cells[..|got|] + slice + cells[|got| + |slice|..], was, got + slice, pending, left)
  {
  }

  method CopyFromSlice(buf: array<byte>, n: nat, slice: seq<byte>)
    requires n + |slice| <= buf.Length
    modifies buf
    ensures buf[..] == old(buf[..n]) + slice + old(buf[n + |slice|..])
  {
    forall i | 0 <= i < |slice| {
      buf[n + i] := slice[i];
    }
  }

  class StreamInstance {
    var recvState: RecvState
    var recvErrorCode: Option<nat>
    var connError: Option<nat>
    var recvBuffers: seq<StreamRecvBuffer>
    var readCompleteMap: seq<Range>
    var readCompleteCursor: nat
    /** The total passed to `receive_complete`. */
    ghost var acknowledged: nat

    ghost predicate Valid()
      reads this
    {
      && AcksValid(Acks(readCompleteMap, readCompleteCursor))
      && acknowledged == readCompleteCursor
    }

    constructor ()
      ensures Valid() && QueueValid() && recvBuffers == [] && recvState == Start && recvErrorCode == None && connError == None
      ensures Acks(readCompleteMap, readCompleteCursor) == NO_ACKS && acknowledged == 0
    {
      recvErrorCode, connError := None, None;
      recvState, recvBuffers, readCompleteMap, readCompleteCursor, acknowledged := Start, [], [], 0, 0;
    }

    /** The transport delivers data: it is queued behind what there is. */
    method HandleEventReceive(absoluteOffset: nat, buffers: seq<seq<byte>>, fin: bool)
      requires QueueValid()
      modifies this`recvBuffers
      ensures QueueValid() && |recvBuffers| == |old(recvBuffers)| + 1 && old(recvBuffers) <= recvBuffers
      ensures fresh(recvBuffers[|recvBuffers| - 1])
      ensures Pending(recvBuffers) == old(Pending(recvBuffers)) + Flatten(buffers)
    {
      hide StreamRecvBuffer.Valid, StreamRecvBuffer.Remaining, Flatten;
      var recvBuffer := new StreamRecvBuffer(absoluteOffset, buffers, fin);
      PendingOfAppend(recvBuffers, recvBuffer);
      recvBuffers := recvBuffers + [recvBuffer];
    }

    /** The buffer is dropped: acknowledges what this completes.  Returns what `receive_complete` is called with. */
    method ReadComplete(buffer: StreamRecvBuffer) returns (completeLen: Option<nat>)
      requires Valid() && buffer.Valid()
      modifies this`readCompleteMap, this`readCompleteCursor, this`acknowledged
      ensures Valid()
      ensures var d := Dropped(Range(buffer.offset, buffer.offset + buffer.len), buffer.Remaining() == [], buffer.fin);
              (Acks(readCompleteMap, readCompleteCursor), completeLen)
              == AfterDrop(old(Acks(readCompleteMap, readCompleteCursor)), d)
      ensures acknowledged == old(acknowledged) + if completeLen.Some? then completeLen.value else 0
      ensures forall x: nat ::
                Covers(readCompleteMap, x) <==> old(Covers(readCompleteMap, x)) || buffer.offset <= x < buffer.offset + buffer.len
    {
      hide Insert, Rest;
      var range := Range(buffer.offset, buffer.offset + buffer.len);
      ghost var before, d := Acks(readCompleteMap, readCompleteCursor), Dropped(range, buffer.Remaining() == [], buffer.fin);
      DropAcknowledges(before, d);
      var remaining := buffer.Len();
      if range.start < range.end {
        readCompleteMap := Insert(readCompleteMap, range);
      }
      completeLen := None;
      if readCompleteMap != [] {
        var completeRange := readCompleteMap[0];
        if completeRange.start == 0 && readCompleteCursor < completeRange.end {
          completeLen := Some(completeRange.end - readCompleteCursor);
          readCompleteCursor := completeRange.end;
        } else if completeRange.start == 0 && readCompleteCursor == completeRange.end
                  && buffer.offset == completeRange.end && remaining == 0 && buffer.fin {
          completeLen := Some(0);
        }
      } else if remaining == 0 && buffer.fin {
        completeLen := Some(0);
      }
      if completeLen.Some? {
        acknowledged := acknowledged + completeLen.value;
      }
    }

    predicate QueueValid()
      reads this, recvBuffers
    {
      Distinct(recvBuffers) && forall b | b in recvBuffers :: b.Valid()
    }

    /** Reads from the buffer at the front. */
    method ReadFront(size: nat) returns (slice: Option<seq<byte>>)
      requires QueueValid() && recvBuffers != []
      modifies recvBuffers[0]
      ensures QueueValid()
      ensures slice.None? ==> unchanged(recvBuffers[0]) && recvBuffers[0].Remaining() == []
      ensures slice.Some? ==> |slice.value| <= size && old(Pending(recvBuffers)) == slice.value + Pending(recvBuffers)
      ensures slice.Some? ==>
                && recvBuffers[0].BuffersLeft() <= old(recvBuffers[0].BuffersLeft())
                && (recvBuffers[0].BuffersLeft() < old(recvBuffers[0].BuffersLeft()) || |slice.value| == size)
    {
      hide Rest;
      var front := recvBuffers[0];
      slice := front.GetBytesUptoSize(size);
      if slice.None? {
        NothingLeft(front.buffers);
      }
    }

    /** Copies from the buffer at the front into `buf`, from position n on. */
    method ReadInto(buf: array<byte>, n: nat) returns (len: Option<nat>, ghost slice: seq<byte>)
      requires QueueValid() && recvBuffers != [] && n <= buf.Length
      modifies recvBuffers[0], buf
      ensures QueueValid()
      ensures len.None? ==> unchanged(recvBuffers[0]) && unchanged(buf) && recvBuffers[0].Remaining() == []
      ensures len.Some? ==>
                && len.value == |slice| && n + |slice| <= buf.Length
                && buf[..] == old(buf[..])[..n] + slice + old(buf[..])[n + |slice|..]
                && old(Pending(recvBuffers)) == slice + Pending(recvBuffers)
                && recvBuffers[0].BuffersLeft() <= old(recvBuffers[0].BuffersLeft())
                && (recvBuffers[0].BuffersLeft() < old(recvBuffers[0].BuffersLeft()) || n + |slice| == buf.Length)
    {
      hide StreamRecvBuffer.Valid, StreamRecvBuffer.Remaining, StreamRecvBuffer.BuffersLeft, Pending, Distinct;
      var taken := ReadFront(buf.Length - n);
      if taken.None? {
        return None, [];
      }
      slice := taken.value;
      CopyFromSlice(buf, n, taken.value);
      return Some(|taken.value|), slice;
    }

    /** Takes the buffer at the front off the queue. */
    method TakeFront() returns (front: StreamRecvBuffer)
      requires QueueValid() && recvBuffers != [] && recvBuffers[0].Remaining() == []
      modifies this`recvBuffers
      ensures QueueValid() && old(recvBuffers) == [front] + recvBuffers
      ensures Pending(recvBuffers) == old(Pending(recvBuffers))
    {
      front := recvBuffers[0];
      recvBuffers := recvBuffers[1..];
    }

    /** Halfway through a read: `completed` are the buffers emptied so far, `got` what was copied into `buf`. */
    ghost predicate FilledSoFar(buf: array<byte>, before: seq<StreamRecvBuffer>, was: seq<byte>, pending: seq<byte>,
                                completed: seq<StreamRecvBuffer>, fin: bool, got: seq<byte>)
      reads this, buf, recvBuffers, completed
    {
      && QueueValid() && Distinct(before) && completed + recvBuffers == before && |got| <= buf.Length
      && Filled(buf[..], was, got, pending, Pending(recvBuffers))
      && AllRead(completed) && fin == (completed != [] && completed[|completed| - 1].fin)
    }

    /** Copies from the buffer at the front, or takes it off the queue if it is empty. */
    method FillStep(buf: array<byte>, read: nat, completed: seq<StreamRecvBuffer>, fin: bool,
                    ghost before: seq<StreamRecvBuffer>, ghost was: seq<byte>, ghost pending: seq<byte>, ghost got: seq<byte>)
      returns (read': nat, completed': seq<StreamRecvBuffer>, fin': bool, ghost got': seq<byte>)
      requires FilledSoFar(buf, before, was, pending, completed, fin, got) && recvBuffers != [] && read == |got| < buf.Length
      modifies this`recvBuffers, recvBuffers[0], buf
      ensures FilledSoFar(buf, before, was, pending, completed', fin', got') && read' == |got'|
      ensures if completed' == completed then
                && recvBuffers == old(recvBuffers)
                && recvBuffers[0].BuffersLeft() <= old(recvBuffers[0].BuffersLeft())
                && (recvBuffers[0].BuffersLeft() < old(recvBuffers[0].BuffersLeft()) || |got'| == buf.Length)
              else
                |recvBuffers| < |old(recvBuffers)|
    {
      hide StreamRecvBuffer.Valid, StreamRecvBuffer.Remaining, StreamRecvBuffer.BuffersLeft, Pending, AllRead, Distinct, Filled;
      FrontIsNotCompleted(before, completed, recvBuffers);
      ghost var cells := buf[..];
      var len, slice := ReadInto(buf, read);
      if len.Some? {
        MoreFilled(was, got, cells, slice, pending, Pending(recvBuffers));
        return read + len.value, completed, fin, got + slice;
      }
      var front := TakeFront();
      OneMoreRead(completed, front);
      assert buf[..] == cells;
      return read, completed + [front], front.fin, got;
    }

    /** The copy loop of `poll_read`: fills `buf` from the queue, and takes the buffers it has emptied off it. */
    method Fill(buf: array<byte>) returns (status: ReadStatus, n: nat, completed: seq<StreamRecvBuffer>, ghost got: seq<byte>)
      requires QueueValid()
      modifies this`recvBuffers, recvBuffers, buf
      ensures QueueValid() && completed + recvBuffers == old(recvBuffers)
      ensures n == |got| <= buf.Length && Filled(buf[..], old(buf[..]), got, old(Pending(recvBuffers)), Pending(recvBuffers))
      ensures AllRead(completed)
      ensures n < buf.Length ==> recvBuffers == []
      ensures status == StatusOf(n, buf.Length, completed)
    {
      hide StreamRecvBuffer.Valid, StreamRecvBuffer.Remaining, StreamRecvBuffer.BuffersLeft, Pending, AllRead, Distinct, Min, Filled;
      var read := 0;
      var fin := false;
      completed, got := [], [];
      ghost var before, pending, was := recvBuffers, Pending(recvBuffers), buf[..];
      NothingToRead();
      NothingFilled(was, pending);
      while true
        invariant FilledSoFar(buf, before, was, pending, completed, fin, got) && read == |got|
        decreases |recvBuffers|, if recvBuffers != [] then recvBuffers[0].BuffersLeft() else 0, buf.Length - read
      {
        if read == buf.Length {
          return Readable(read), read, completed, got;
        }
        if recvBuffers == [] {
          return NothingLeftStatus(read, fin), read, completed, got;
        }
        assert recvBuffers[0] == before[|completed|];
        read, completed, fin, got := FillStep(buf, read, completed, fin, before, was, pending, got);
      }
    }

    /** A read of up to `buf.Length` bytes.  The buffers emptied by it are dropped once the state is updated. */
    method PollRead(buf: array<byte>) returns (answer: Answer, ghost completed: seq<StreamRecvBuffer>, ghost got: seq<byte>)
      requires Valid() && QueueValid()
      modifies this`recvState, this`recvBuffers, this`readCompleteMap, this`readCompleteCursor, this`acknowledged, recvBuffers, buf
      ensures Valid() && QueueValid() && completed + recvBuffers == old(recvBuffers)
      ensures |got| <= buf.Length && Filled(buf[..], old(buf[..]), got, old(Pending(recvBuffers)), Pending(recvBuffers))
      // while the stream can be read, a poll waits only if there is nothing to read and the stream has not ended
      ensures var ended := |got| < buf.Length && completed != [] && completed[|completed| - 1].fin;
              old(recvState).StartComplete? ==>
                && (answer == NotReady <==> got == [] && buf.Length > 0 && !ended)
                && (answer != NotReady ==> answer == Read(|got|))
                && recvState == (if ended then Shutdown else StartComplete)
                && (|got| < buf.Length ==> recvBuffers == [])
      // otherwise nothing is read, and nothing changes
      ensures !old(recvState).StartComplete? ==> recvState == old(recvState) && got == [] && completed == []
      ensures old(recvState).Start? ==> answer == NotReady
      ensures old(recvState).Closed? ==> answer == Failed(ReadClosed)
      ensures old(recvState).Shutdown? ==> answer == Read(0)
      ensures old(recvState).ShutdownComplete? ==>
                && (connError.Some? ==> answer == Failed(ConnectionLost(connError.value)))
                && (connError.None? && recvErrorCode.Some? ==> answer == Failed(ReadReset(recvErrorCode.value)))
                && (connError.None? && recvErrorCode.None? ==> answer == Read(0))
      ensures forall x: nat :: Covers(readCompleteMap, x) <==> old(Covers(readCompleteMap, x)) || InRangeOf(completed, x)
    {
      hide StreamRecvBuffer.Valid, StreamRecvBuffer.Remaining, Pending, Distinct, AcksValid, Covers, AllRead, InRangeOf;
      NothingFilled(buf[..], Pending(recvBuffers));
      NothingInRange();
      completed, got := [], [];
      match recvState {
        case Closed => return Failed(ReadClosed), completed, got;
        case Start => return NotReady, completed, got;
        case StartComplete =>
        case Shutdown => return Read(0), completed, got;
        case ShutdownComplete =>
          answer := if connError.Some? then Failed(ConnectionLost(connError.value))
                    else if recvErrorCode.Some? then Failed(ReadReset(recvErrorCode.value))
                    else Read(0);
          return answer, completed, got;
      }
      var status, n, done;
      status, n, done, got := Fill(buf);
      completed := done;
      match status {
        case Readable(read) => answer := Read(read);
        case Finished(read) =>
          recvState := Shutdown;
          answer := Read(if read.Some? then read.value else 0);
        case Blocked(read) => answer := if read.Some? then Read(read.value) else NotReady;
      }
      CompleteAll(done);
    }

    /** Drops buffers, one after the other. */
    method CompleteAll(done: seq<StreamRecvBuffer>)
      requires Valid() && AllRead(done)
      modifies this`readCompleteMap, this`readCompleteCursor, this`acknowledged
      ensures Valid()
      ensures forall x: nat :: Covers(readCompleteMap, x) <==> old(Covers(readCompleteMap, x)) || InRangeOf(done, x)
    {
      hide Covers, StreamRecvBuffer.Valid, StreamInstance.Valid;
      for i := 0 to |done|
        invariant Valid() && AllRead(done)
        invariant forall x: nat :: Covers(readCompleteMap, x) <==> old(Covers(readCompleteMap, x)) || InRangeOf(done[..i], x)
      {
        assert done[..i + 1] == done[..i] + [done[i]] && done[i] in done;
        var _ := ReadComplete(done[i]);
      }
      assert done[..|done|] == done;
    }
  }

  predicate AllRead(completed: seq<StreamRecvBuffer>)
    reads completed
  {
    forall b | b in completed :: b.Valid() && b.Remaining() == []
  }

  /** The status of a read that got n bytes into a buffer of `size` and emptied the buffers `completed`. */
  function StatusOf(n: nat, size: nat, completed: seq<StreamRecvBuffer>): ReadStatus {
    if n == size then Readable(n) else NothingLeftStatus(n, completed != [] && completed[|completed| - 1].fin)
  }

  /** What a read that emptied the queue comes to. */
  function NothingLeftStatus(n: nat, fin: bool): ReadStatus {
    var got := if n > 0 then Some(n) else None;
    if fin then Finished(got) else Blocked(got)
  }

  lemma NothingInRange()
    ensures forall x: nat :: !InRangeOf([], x)
  {
  }

  lemma NothingToRead()
    ensures AllRead([])
  {
  }

  lemma FrontIsNotCompleted(before: seq<StreamRecvBuffer>, completed: seq<StreamRecvBuffer>, queue: seq<StreamRecvBuffer>)
    requires Distinct(before) && before == completed + queue && queue != []
    ensures queue[0] in before && queue[0] !in completed
  {
    assert before[|completed|] == queue[0];
    forall i | 0 <= i < |completed| ensures completed[i] != queue[0] {
      assert before[i] == completed[i];
    }
  }

  lemma OneMoreRead(completed: seq<StreamRecvBuffer>, front: StreamRecvBuffer)
    requires AllRead(completed) && front.Valid() && front.Remaining() == []
    ensures AllRead(completed + [front])
  {
  }
}
