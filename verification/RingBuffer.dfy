/** The growing circular buffer, proved to be a first-in first-out queue of bytes. */
module RingBuffers {
  import opened Basics

  const INITIAL_CAPACITY: nat := 4096

  // ----- a block of bytes read as a ring

  /** The bytes from position r up to position w, going round the end of the block. */
  function Ring(d: seq<Byte>, r: nat, w: nat): (res: seq<Byte>)
    requires r < |d| && w < |d|
  {
    if r <= w then d[r..w] else d[r..] + d[..w]
  }

  function Wrap(p: nat, cap: nat): (r: nat)
    requires 0 < cap && p < 2 * cap
  {
    if p < cap then p else p - cap
  }

  /** Positions advance modulo the capacity. */
  function Advance(p: nat, n: nat, cap: nat): (r: nat)
    requires 0 < cap
  {
    (p + n) % cap
  }

  lemma AdvanceWraps(p: nat, n: nat, cap: nat)
    requires p < cap && n <= cap
    ensures Advance(p, n, cap) == Wrap(p + n, cap)
  {
    var k, r := (p + n) / cap, (p + n) % cap;
    assert p + n == k * cap + r;
    MulLe(2, k, cap);
    MulLe(k, 0, cap);
  }

  /** Reading n bytes: they come from the end of the block first, then from its start. */
  lemma RingRead(d: seq<Byte>, r: nat, w: nat, n: nat)
    requires r < |d| && w < |d| && n <= |Ring(d, r, w)|
    ensures Ring(d, r, w)[..n] == (if n <= |d| - r then d[r..r + n] else d[r..] + d[..n - (|d| - r)])
    ensures Ring(d, Wrap(r + n, |d|), w) == Ring(d, r, w)[n..]
  {
    var q := Ring(d, r, w);
    if r > w && r + n < |d| {
      assert q[n..] == d[r + n..] + d[..w];
    } else if r > w && r + n == |d| {
      assert q[n..] == d[..w];
    } else if r > w {
      assert q[n..] == d[r + n - |d|..w];
    }
  }

  lemma PastedSlice(d: seq<Byte>, to: nat, s: seq<Byte>, i: nat, j: nat)
    requires to + |s| <= |d| && i <= j <= |d|
    ensures j <= to || to + |s| <= i ==> Pasted(d, to, s)[i..j] == d[i..j]
    ensures to <= i && j <= to + |s| ==> Pasted(d, to, s)[i..j] == s[i - to..j - to]
  {
    var e := Pasted(d, to, s);
    if j <= to || to + |s| <= i {
      forall k | i <= k < j ensures e[k] == d[k] {}
    } else if to <= i && j <= to + |s| {
      forall k | i <= k < j ensures e[k] == s[k - to] {}
    }
  }

  /** A ring that wraps, as two slices. */
  lemma RingSlices(d: seq<Byte>, r: nat, w: nat)
    requires r < |d| && w < |d|
    ensures Ring(d, r, w) == if r <= w then d[r..w] else d[r..|d|] + d[0..w]
  {
    assert d[r..] == d[r..|d|] && d[..w] == d[0..w];
  }

  lemma TwoSlices(d: seq<Byte>, i: nat, j: nat, k: nat)
    requires i <= j <= k <= |d|
    ensures d[i..j] + d[j..k] == d[i..k]
  {
  }

  lemma PastedFront(out: seq<Byte>, a: seq<Byte>)
    requires |a| <= |out|
    ensures Pasted(out, 0, a) == a + out[|a|..]
  {
  }

  lemma PastedTwice(out: seq<Byte>, a: seq<Byte>, b: seq<Byte>)
    requires |a| + |b| <= |out|
    ensures Pasted(Pasted(out, 0, a), |a|, b) == (a + b) + out[|a| + |b|..]
  {
    PastedFront(out, a);
    hide Pasted;
    PastedBehind(a, out[|a|..], b);
  }

  lemma PastedBehind(a: seq<Byte>, rest: seq<Byte>, b: seq<Byte>)
    requires |b| <= |rest|
    ensures Pasted(a + rest, |a|, b) == (a + b) + rest[|b|..]
  {
    assert (a + rest)[..|a|] == a && (a + rest)[|a| + |b|..] == rest[|b|..];
  }

  lemma RingLength(d: seq<Byte>, r: nat, w: nat)
    requires r < |d| && w < |d|
    ensures |Ring(d, r, w)| == if r <= w then w - r else |d| - r + w
  {
  }

  /** The copies of a read put the front of the queue at the front of the target. */
  lemma OutCopied(d: seq<Byte>, r: nat, w: nat, n: nat, out: seq<Byte>)
    requires r < |d| && w < |d| && n <= |out| && n <= |Ring(d, r, w)|
    ensures var tmp := if n <= |d| - r then n else |d| - r;
            var e := Pasted(out, 0, d[r..r + tmp]);
            (if n > tmp then Pasted(e, tmp, d[0..n - tmp]) else e) == Ring(d, r, w)[..n] + out[n..]
  {
    hide Pasted, Ring;
    RingRead(d, r, w, n);
    RingLength(d, r, w);
    if n <= |d| - r {
      PastedFront(out, d[r..r + n]);
    } else {
      assert d[r..] == d[r..r + (|d| - r)] && d[..n - (|d| - r)] == d[0..n - (|d| - r)];
      PastedTwice(out, d[r..r + (|d| - r)], d[0..n - (|d| - r)]);
    }
  }

  /** Writing behind the queue: one copy up to the end of the block and one to its start. */
  lemma RingWrite(d: seq<Byte>, r: nat, w: nat, s: seq<Byte>)
    requires r < |d| && w < |d| && |Ring(d, r, w)| + |s| < |d|
    ensures var tmp := if |s| <= |d| - w then |s| else |d| - w;
            var e := Pasted(d, w, s[..tmp]);
            Ring(if |s| > tmp then Pasted(e, 0, s[tmp..]) else e, r, Wrap(w + |s|, |d|)) == Ring(d, r, w) + s
  {
    hide Pasted;
    if |s| <= |d| - w {
      assert s[..|s|] == s;
      RingWriteAhead(d, r, w, s);
    } else {
      assert r <= w;
      RingWriteAround(d, r, w, s);
    }
  }

  lemma RingWriteAhead(d: seq<Byte>, r: nat, w: nat, s: seq<Byte>)
    requires r < |d| && w < |d| && |Ring(d, r, w)| + |s| < |d| && |s| <= |d| - w
    ensures Ring(Pasted(d, w, s), r, Wrap(w + |s|, |d|)) == Ring(d, r, w) + s
  {
    hide Pasted, Ring;
    var e, w' := Pasted(d, w, s), Wrap(w + |s|, |d|);
    WrittenSlice(d, w, s);
    RingSlices(d, r, w);
    RingSlices(e, r, w');
    if r <= w {
      PastedSlice(d, w, s, r, w);
      TwoSlices(e, r, w, w + |s|);
      Nothing(e);
    } else {
      PastedSlice(d, w, s, r, |d|);
      PastedSlice(d, w, s, 0, w);
      TwoSlices(e, 0, w, w + |s|);
      Regroup(d[r..|d|], d[0..w], s);
    }
  }

  lemma Nothing(e: seq<Byte>)
    ensures forall a: seq<Byte> :: a + e[0..0] == a
  {
  }

  lemma Regroup(a: seq<Byte>, b: seq<Byte>, c: seq<Byte>)
    ensures (a + b) + c == a + (b + c)
  {
  }

  lemma WrittenSlice(d: seq<Byte>, w: nat, s: seq<Byte>)
    requires w + |s| <= |d|
    ensures Pasted(d, w, s)[w..w + |s|] == s
  {
  }

  lemma RingWriteAround(d: seq<Byte>, r: nat, w: nat, s: seq<Byte>)
    requires r <= w < |d| && w - r + |s| < |d| && |s| > |d| - w
    ensures var tmp := |d| - w;
            Ring(Pasted(Pasted(d, w, s[..tmp]), 0, s[tmp..]), r, w + |s| - |d|) == d[r..w] + s
  {
    hide Pasted, Ring;
    var tmp := |d| - w;
    var front, back := s[..tmp], s[tmp..];
    var halfway := Pasted(d, w, front);
    RingSlices(Pasted(halfway, 0, back), r, |back|);
    WrittenSlice(halfway, 0, back);
    PastedSlice(halfway, 0, back, r, |d|);
    PastedSlice(d, w, front, r, w);
    WrittenSlice(d, w, front);
    TwoSlices(halfway, r, w, |d|);
    assert front + back == s;
  }

  /** Growing into block f: the queue stays put when it does not wrap, else its tail moves to the new
      end. */
  lemma RingGrow(d: seq<Byte>, f: seq<Byte>, r: nat, w: nat)
    requires r < |d| && w < |d| && |d| < |f|
    ensures var g, tmp := Pasted(f, 0, d), |d| - r;
            if r <= w then Ring(g, r, w) == Ring(d, r, w)
            else Ring(Pasted(g, |f| - tmp, g[r..r + tmp]), |f| - tmp, w) == Ring(d, r, w)
  {
    hide Pasted, Ring;
    var g, tmp := Pasted(f, 0, d), |d| - r;
    RingSlices(d, r, w);
    if r <= w {
      RingSlices(g, r, w);
      PastedSlice(f, 0, d, r, w);
    } else {
      PastedSlice(f, 0, d, r, |d|);
      PastedSlice(f, 0, d, 0, w);
      TailMoved(g, r, r + tmp, w);
    }
  }

  lemma TailMoved(g: seq<Byte>, r: nat, end: nat, w: nat)
    requires w < r < end <= |g|
    ensures var tail := g[r..end];
            Ring(Pasted(g, |g| - |tail|, tail), |g| - |tail|, w) == tail + g[0..w]
  {
    hide Pasted, Ring;
    var tail := g[r..end];
    var at: nat := |g| - |tail|;
    RingSlices(Pasted(g, at, tail), at, w);
    PastedSlice(g, at, tail, 0, w);
    WrittenSlice(g, at, tail);
  }

  /** The prefix one read takes: `length` bytes, or everything when that is 0 or too much. */
  function Taken(queue: seq<Byte>, length: nat): (r: seq<Byte>) {
    if length == 0 || length > |queue| then queue else queue[..length]
  }

  class RingBuffer {
    var data: array<Byte>
    var capacity: nat
    var readPos: nat
    var writePos: nat

    ghost predicate Valid()
      reads this
    {
      data.Length == capacity && readPos < capacity && writePos < capacity
    }

    /** The queued bytes, oldest first. */
    ghost function Contents(): (s: seq<Byte>)
      requires Valid()
      reads this, data
      ensures |s| < capacity
    {
      Ring(data[..], readPos, writePos)
    }

    constructor ()
      ensures Valid() && Contents() == [] && fresh(data) && capacity == 4096
    {
      data := new Byte[INITIAL_CAPACITY](_ => 0);
      capacity, readPos, writePos := INITIAL_CAPACITY, 0, 0;
    }

    function Used(): (n: nat)
      requires Valid()
      reads this, data
      ensures n == |Contents()|
    {
      if readPos <= writePos then writePos - readPos else capacity - readPos + writePos
    }

    /** One slot always stays empty, so that a full buffer is never taken for an empty one. */
    function Available(): (n: nat)
      requires Valid()
      reads this, data
      ensures n + |Contents()| + 1 == capacity
    {
      capacity - Used() - 1
    }

    method Truncate(resize: bool)
      requires Valid()
      modifies this
      ensures Valid() && Contents() == [] && (if resize then fresh(data) else data == old(data))
      ensures capacity == if resize then 4096 else old(capacity)
    {
      if resize {
        capacity := INITIAL_CAPACITY;
        data := new Byte[capacity](_ => 0);
      }
      readPos, writePos := 0, 0;
    }

    /** Moves up to `length` bytes (all of them when it is 0) to the front of `outData`. */
    method ReadData(outData: array?<Byte>, length: nat) returns (n: nat)
      requires Valid() && outData != data
      requires outData != null ==> outData.Length >= |Taken(Contents(), length)|
      modifies this`readPos, outData
      ensures Valid()
      ensures n == if outData == null then 0
                   else if length == 0 || length > |old(Contents())| then |old(Contents())| else length
      ensures Contents() == old(Contents())[n..]
      ensures outData != null ==> outData[..] == old(Contents())[..n] + old(outData[..])[n..]
    {
      hide Advance, Ring;
      if outData == null {
        return 0;
      }
      n := length;
      var max := Used();
      if n == 0 || n > max {
        n := max;
      }
      if n > 0 {
        RingRead(data[..], readPos, writePos, n);
        AdvanceWraps(readPos, n, capacity);
        CopyOut(outData, n);
        readPos := Advance(readPos, n, capacity);
      }
    }

    /** The two memcpy calls of readData. */
    method CopyOut(outData: array<Byte>, n: nat)
      requires Valid() && outData != data && n <= outData.Length && n <= |Contents()|
      modifies outData
      ensures outData[..] == Contents()[..n] + old(outData[..])[n..]
    {
      hide Ring, Wrap, Pasted;
      OutCopied(data[..], readPos, writePos, n, outData[..]);
      var tmp := if n <= capacity - readPos then n else capacity - readPos;
      Copy(outData, 0, data, readPos, tmp);
      if n > tmp {
        Copy(outData, tmp, data, 0, n - tmp);
      }
    }

    /** The two memcpy calls of writeData. */
    method CopyIn(inData: array<Byte>, length: nat)
      requires Valid() && inData != data && length <= inData.Length && length + |Contents()| < capacity
      modifies data
      ensures Valid()
      ensures Ring(data[..], readPos, Wrap(writePos + length, capacity)) == old(Contents()) + inData[..length]
    {
      hide Ring, Wrap, Pasted;
      ghost var added := inData[..length];
      RingWrite(data[..], readPos, writePos, added);
      var tmp := if length <= capacity - writePos then length else capacity - writePos;
      assert inData[0..0 + tmp] == added[..tmp];
      Copy(data, writePos, inData, 0, tmp);
      if length > tmp {
        assert inData[tmp..tmp + (length - tmp)] == added[tmp..];
        Copy(data, 0, inData, tmp, length - tmp);
      }
    }

    /** Grows the block by doubling until `size` bytes fit; a wrapped tail moves to the new end. */
    method Expand(size: nat)
      requires Valid()
      modifies this
      ensures Valid() && Contents() == old(Contents())
      ensures capacity == Doubled(old(capacity), size)
      ensures if size <= old(capacity) then capacity == old(capacity) else size <= capacity < 2 * size
      ensures data == old(data) || fresh(data)
    {
      hide Ring;
      var newCap := capacity;
      while size > newCap
        invariant capacity <= newCap && Doubled(newCap, size) == Doubled(capacity, size)
        decreases size - newCap
      {
        newCap := newCap * 2;
      }
      if newCap != capacity {
        MoveTo(newCap);
      }
    }

    /** realloc, and the memmove of a wrapped tail. */
    method MoveTo(newCap: nat)
      requires Valid() && newCap > capacity
      modifies this
      ensures Valid() && Contents() == old(Contents()) && capacity == newCap && fresh(data)
    {
      hide Ring, Pasted;
      var newBlock := new Byte[newCap];
      RingGrow(data[..], newBlock[..], readPos, writePos);
      assert data[0..0 + capacity] == data[..];
      Copy(newBlock, 0, data, 0, capacity);
      data := newBlock;
      if readPos > writePos {
        var tmp := capacity - readPos;
        Copy(data, newCap - tmp, data, readPos, tmp);
        readPos := newCap - tmp;
      }
      capacity := newCap;
    }

    method WriteData(inData: array?<Byte>, length: nat)
      requires Valid() && inData != data && (inData != null ==> length <= inData.Length)
      modifies this, data
      ensures Valid() && (data == old(data) || fresh(data))
      ensures Contents() == old(Contents()) + if inData == null then [] else old(inData[..length])
      ensures capacity == if inData == null || length <= old(Available()) then old(capacity)
                          else Doubled(old(capacity), length - old(Available()) + old(capacity))
    {
      hide Advance;
      if inData == null || length == 0 {
        return;
      }
      var ava := Available();
      if length > ava {
        Expand(length - ava + capacity);
      }
      CopyIn(inData, length);
      AdvanceWraps(writePos, length, capacity);
      writePos := Advance(writePos, length, capacity);
    }

    /** operator<< for a string: its length in two bytes, then its bytes. */
    method WriteString(val: seq<Byte>)
      requires Valid()
      modifies this, data
      ensures Valid() && (data == old(data) || fresh(data))
      ensures Contents() == old(Contents()) + Frame(val)
    {
      hide Frame;
      var length := |val| % 0x1_0000;
      var prefix := new Byte[] [length % 256, length / 256];
      assert prefix[..2] == [length % 256, length / 256];
      WriteData(prefix, 2);
      var bytes := new Byte[|val|](i requires 0 <= i < |val| => val[i]);
      assert bytes[..|val|] == val;
      WriteData(bytes, |val|);
      FrameAfter(old(Contents()), val);
    }

    /** readString() through readUInt16(). A zero length would make readData take everything, so
        nothing may follow it. */
    method ReadString() returns (val: seq<Byte>)
      requires Valid()
      requires Unframe(Contents()).Some?
      modifies this`readPos
      ensures Valid()
      ensures Some((val, Contents())) == Unframe(old(Contents()))
    {
      var length := ReadUInt16();
      var bytes := new Byte[length](_ => 0);
      ghost var rest := Contents();
      var size := ReadData(bytes, length);
      val := bytes[..size];
      assert val == Taken(rest, length);
    }

    /** readUInt16: two bytes, low byte first; missing bytes count as zero. */
    method ReadUInt16() returns (n: nat)
      requires Valid()
      modifies this`readPos
      ensures Valid()
      ensures n == Prefix(old(Contents()))
      ensures Contents() == if |old(Contents())| <= 2 then [] else old(Contents())[2..]
    {
      var value := new Byte[2](_ => 0);
      var size := ReadData(value, 2);
      assert value[0] == value[..][0] && value[1] == value[..][1];
      n := value[0] as int + 256 * (value[1] as int);
    }
  }

  // ----- strings framed by a 16-bit length

  /** The low byte of the length comes first. */
  function Frame(s: seq<Byte>): (r: seq<Byte>)
    ensures |r| == |s| + 2 && r[2..] == s && r[0] as int + 256 * (r[1] as int) == |s| % 0x1_0000
  {
    var length := |s| % 0x1_0000;
    [length % 256, length / 256] + s
  }

  function Prefix(queue: seq<Byte>): (r: nat) {
    (if |queue| > 0 then queue[0] as int else 0) + 256 * (if |queue| > 1 then queue[1] as int else 0)
  }

  lemma FrameAfter(queue: seq<Byte>, s: seq<Byte>)
    ensures var length := |s| % 0x1_0000;
            (queue + [length % 256, length / 256]) + s == queue + Frame(s)
  {
  }

  /** The string a reader gets from the queue, and what is left of the queue. With a zero prefix
      readData would copy everything that follows into an empty string: no defined result. */
  function Unframe(queue: seq<Byte>): (r: Option<(seq<Byte>, seq<Byte>)>) {
    var rest := queue[|Taken(queue, 2)|..];
    if Prefix(queue) == 0 && rest != [] then None
    else
      var body := Taken(rest, Prefix(queue));
      Some((body, rest[|body|..]))
  }

  lemma FrameParts(s: seq<Byte>, rest: seq<Byte>)
    ensures var queue := Frame(s) + rest;
            Prefix(queue) == |s| % 0x1_0000 && |Taken(queue, 2)| == 2 && queue[2..] == s + rest
  {
    var length := |s| % 0x1_0000;
    assert length % 256 + 256 * (length / 256) == length;
    assert (Frame(s) + rest)[2..] == s + rest;
  }

  /** A length that is a multiple of 65536 is written as zero: the read has no defined result when
      anything follows the prefix. */
  lemma FrameUndefined(s: seq<Byte>, rest: seq<Byte>)
    ensures Unframe(Frame(s) + rest).None? <==> |s| % 0x1_0000 == 0 && s + rest != []
  {
    FrameParts(s, rest);
  }

  /** The shortest string that cannot be read back although nothing follows it. */
  lemma FrameOf65536(s: seq<Byte>)
    requires |s| == 0x1_0000
    ensures Unframe(Frame(s)).None?
  {
    assert Frame(s) + [] == Frame(s);
    FrameUndefined(s, []);
  }

  /** A longer string is cut: the reader gets its first |s| % 65536 bytes, and the rest of it stays
      in the buffer. */
  lemma LongFrameIsCut(s: seq<Byte>, rest: seq<Byte>)
    requires |s| % 0x1_0000 != 0
    ensures var n := |s| % 0x1_0000; Unframe(Frame(s) + rest) == Some((s[..n], s[n..] + rest))
  {
    hide Frame, Prefix;
    FrameParts(s, rest);
    var n := |s| % 0x1_0000;
    assert (s + rest)[..n] == s[..n] && (s + rest)[n..] == s[n..] + rest;
  }

  /** A framed string is read back, and nothing else touched, exactly when its length is 1 to
      65535, or when it is empty and the last thing in the buffer. */
  lemma FrameRoundTrip(s: seq<Byte>, rest: seq<Byte>)
    ensures Unframe(Frame(s) + rest) == Some((s, rest)) <==>
            (1 <= |s| < 0x1_0000 || (s == [] && rest == []))
  {
    var n := |s| % 0x1_0000;
    if n == 0 {
      FrameUndefined(s, rest);
      if s + rest == [] {
        assert s == [] && rest == [] && Frame(s) + rest == [0, 0];
        assert Unframe([0, 0]) == Some(([], []));
      }
    } else {
      LongFrameIsCut(s, rest);
      if n == |s| {
        assert s[..n] == s && s[n..] + rest == rest;
      } else {
        assert |s[..n]| < |s|;
      }
    }
  }

  function Frames(ss: seq<seq<Byte>>): (r: seq<Byte>) {
    if ss == [] then [] else Frame(ss[0]) + Frames(ss[1..])
  }

  function UnframeAll(queue: seq<Byte>, n: nat): (r: Option<seq<seq<Byte>>>) {
    if n == 0 then Some([])
    else
      match Unframe(queue)
      case None => None
      case Some(first) =>
        match UnframeAll(first.1, n - 1)
        case None => None
        case Some(others) => Some([first.0] + others)
  }

  /** Any number of strings written one after the other are read back in order. */
  lemma {:induction false} FramesRoundTrip(ss: seq<seq<Byte>>)
    requires forall i :: 0 <= i < |ss| ==> 1 <= |ss[i]| < 0x1_0000
    ensures UnframeAll(Frames(ss), |ss|) == Some(ss)
  {
    hide Frame, Unframe;
    if ss != [] {
      FrameRoundTrip(ss[0], Frames(ss[1..]));
      FramesRoundTrip(ss[1..]);
      assert [ss[0]] + ss[1..] == ss;
    }
  }

  // ----- whole runs

  datatype Op = Write(bytes: seq<Byte>) | Read(length: nat) | Grow(size: nat)

  /** What a first-in first-out queue holds, and what has been read from it, after some operations. */
  function Queue(q: seq<Byte>, ops: seq<Op>): (r: seq<Byte>)
    decreases |ops|
  {
    if ops == [] then q
    else
      var before, last := Queue(q, ops[..|ops| - 1]), ops[|ops| - 1];
      match last
      case Write(bytes) => before + bytes
      case Read(length) => before[|Taken(before, length)|..]
      case Grow(_) => before
  }

  function Output(q: seq<Byte>, ops: seq<Op>): (r: seq<Byte>)
    decreases |ops|
  {
    if ops == [] then []
    else
      var front, last := ops[..|ops| - 1], ops[|ops| - 1];
      Output(q, front) + if last.Read? then Taken(Queue(q, front), last.length) else []
  }

  function Written(ops: seq<Op>): (r: seq<Byte>)
    decreases |ops|
  {
    if ops == [] then []
    else
      var last := ops[|ops| - 1];
      Written(ops[..|ops| - 1]) + if last.Write? then last.bytes else []
  }

  /** A read with length 0, the default, takes everything; one with a length takes that much, or what
      there is. */
  lemma QueueAfterRead(q: seq<Byte>, ops: seq<Op>, length: nat)
    ensures var before, more := Queue(q, ops), ops + [Read(length)];
            if length == 0 || length >= |before| then
              Queue(q, more) == [] && Output(q, more) == Output(q, ops) + before
            else
              Queue(q, more) == before[length..] && Output(q, more) == Output(q, ops) + before[..length]
  {
    assert (ops + [Read(length)])[..|ops|] == ops;
  }

  /** Nothing is lost, duplicated or reordered: the bytes read followed by the bytes still queued
      are the bytes there at first followed by the bytes written. */
  lemma {:induction false} QueueConserves(q: seq<Byte>, ops: seq<Op>)
    ensures Output(q, ops) + Queue(q, ops) == q + Written(ops)
    decreases |ops|
  {
    if ops != [] {
      var front := ops[..|ops| - 1];
      QueueConserves(q, front);
      var before := Queue(q, front);
      match ops[|ops| - 1]
      case Write(bytes) =>
        assert Output(q, front) + (before + bytes) == (Output(q, front) + before) + bytes;
        assert (q + Written(front)) + bytes == q + (Written(front) + bytes);
      case Read(length) =>
        var taken := Taken(before, length);
        assert before == taken + before[|taken|..];
        assert (Output(q, front) + taken) + before[|taken|..] == Output(q, front) + before;
      case Grow(_) =>
        assert Output(q, front) + [] == Output(q, front) && Written(front) + [] == Written(front);
    }
  }

  /** Runs any sequence of operations on a new buffer: it behaves as the queue. */
  method RunAll(ops: seq<Op>) returns (buffer: RingBuffer, output: seq<Byte>)
    ensures buffer.Valid() && buffer.Contents() == Queue([], ops)
    ensures output == Output([], ops)
    ensures output + buffer.Contents() == Written(ops)
  {
    buffer := new RingBuffer();
    output := [];
    for i := 0 to |ops|
      invariant fresh(buffer) && fresh(buffer.data) && buffer.Valid()
      invariant buffer.Contents() == Queue([], ops[..i]) && output == Output([], ops[..i])
    {
      assert ops[..i + 1][..i] == ops[..i];
      match ops[i] {
        case Write(bytes) =>
          var block := new Byte[|bytes|](k requires 0 <= k < |bytes| => bytes[k]);
          assert block[..] == bytes;
          buffer.WriteData(block, |bytes|);
        case Read(length) =>
          var block := new Byte[buffer.Used()];
          var n := buffer.ReadData(block, length);
          output := output + block[..n];
        case Grow(size) =>
          buffer.Expand(size);
      }
    }
    assert ops[..|ops|] == ops;
    QueueConserves([], ops);
  }
}
