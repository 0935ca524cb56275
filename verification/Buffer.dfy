/** The chunked byte buffer of `easy/net/Buffer.cc`: a chain of equal nodes with a position, a size, a
    capacity and a cached current node, proved to behave as one flat growable byte sequence. */
module Buffers {
  import opened Bits
  import opened Endian
  import opened Flat

  /** What a read returns: bytes, the `std::out_of_range` of the C++ code, or the dereference of the
      null `cur_` that `read` performs for zero bytes when the position is the capacity. */
  datatype Outcome<T> = Done(value: T) | OutOfRange | NullCursor

  /** The buffer as a client sees it; the capacity is `|bytes|`. */
  datatype FlatView = FlatView(base: nat, bytes: seq<Byte>, position: nat, size: nat)

  function Max(a: nat, b: nat): nat {
    if a < b then b else a
  }

  /** `g` is `f` with `d` stored at the position, the position moved behind it, and every byte of
      the old capacity outside that range kept. */
  ghost predicate Overwritten(f: FlatView, g: FlatView, d: seq<Byte>) {
    && g.base == f.base
    && f.position <= |f.bytes| <= |g.bytes|
    && g.position == f.position + |d| <= |g.bytes|
    && g.size == Max(f.size, g.position)
    && g.bytes[..f.position] == f.bytes[..f.position]
    && g.bytes[f.position..g.position] == d
    && (forall i :: g.position <= i < |f.bytes| ==> g.bytes[i] == f.bytes[i])
  }

  lemma OverwrittenTwice(f: FlatView, g: FlatView, h: FlatView, d: seq<Byte>, e: seq<Byte>)
    requires Overwritten(f, g, d) && Overwritten(g, h, e)
    ensures Overwritten(f, h, d + e)
  {
    assert h.bytes[..f.position] == h.bytes[..g.position][..f.position];
    assert h.bytes[f.position..g.position] == h.bytes[..g.position][f.position..];
    assert h.bytes[f.position..h.position] == h.bytes[f.position..g.position] + h.bytes[g.position..h.position];
  }

  lemma SplicedIsOverwritten(f: FlatView, g: FlatView, d: seq<Byte>)
    requires f.position + |d| <= |f.bytes| && g.bytes == Splice(f.bytes, f.position, d)
    requires g.base == f.base && g.position == f.position + |d| && g.size == Max(f.size, g.position)
    ensures Overwritten(f, g, d)
  {
  }

  /** Growth before a store keeps the old bytes where they are. */
  lemma GrownThenOverwritten(f: FlatView, g: FlatView, h: FlatView, d: seq<Byte>)
    requires f.bytes <= g.bytes && f.position <= |f.bytes|
    requires f.base == g.base && f.position == g.position && f.size == g.size
    requires Overwritten(g, h, d)
    ensures Overwritten(f, h, d)
  {
    assert f.bytes[..f.position] == g.bytes[..f.position];
  }

  /** A `struct iovec`: `len` bytes of a node's memory from `offset`. */
  datatype IoVec = IoVec(base: array<Byte>, offset: nat, len: nat)

  ghost predicate InRange(iovs: seq<IoVec>) {
    forall v :: v in iovs ==> v.offset + v.len <= v.base.Length
  }

  /** The bytes that i/o vectors stand for, in order. */
  ghost function Joined(iovs: seq<IoVec>): seq<Byte>
    requires InRange(iovs)
    reads set v | v in iovs :: v.base
  {
    if iovs == [] then []
    else iovs[0].base[iovs[0].offset..iovs[0].offset + iovs[0].len] + Joined(iovs[1..])
  }

  method Memcpy(dst: array<Byte>, off: nat, src: seq<Byte>)
    requires off + |src| <= dst.Length
    modifies dst
    ensures dst[..] == Splice(old(dst[..]), off, src)
  {
    forall i | 0 <= i < |src| {
      dst[off + i] := src[i];
    }
  }

  class Node {
    const ptr: array<Byte>
    const size: nat
    var next: Node?

    constructor (s: nat)
      ensures size == s && ptr.Length == s && next == null && fresh(ptr)
    {
      ptr := new Byte[s];
      size := s;
      next := null;
    }

    constructor Wrap(data: array<Byte>)
      ensures ptr == data && size == data.Length && next == null
    {
      ptr := data;
      size := data.Length;
      next := null;
    }
  }

  class Buffer {
    const baseSize: nat
    var position: nat
    var capacity: nat
    var size: nat
    var order: Order
    var root: Node
    var cur: Node?
    ghost var nodes: seq<Node>
    ghost var index: nat   // the node of the position
    ghost var offset: nat  // and the position inside it

    ghost var Repr: set<object>

    /** The nodes form one null-terminated chain of distinct equal chunks from `root`. */
    ghost predicate Chained()
      reads this, Repr
    {
      && baseSize > 0
      && this in Repr
      && |nodes| > 0 && nodes[0] == root
      && (forall i :: 0 <= i < |nodes| ==> nodes[i] in Repr && nodes[i].ptr in Repr)
      && capacity == |nodes| * baseSize
      && (forall i :: 0 <= i < |nodes| ==> nodes[i].size == baseSize && nodes[i].ptr.Length == baseSize)
      && (forall i :: 0 <= i < |nodes| - 1 ==> nodes[i].next == nodes[i + 1])
      && nodes[|nodes| - 1].next == null
      && (forall i, j :: 0 <= i < j < |nodes| ==> nodes[i] != nodes[j] && nodes[i].ptr != nodes[j].ptr)
    }

    /** `cur` is the node of the position, and null exactly at the capacity. */
    ghost predicate Valid()
      reads this, Repr
    {
      && Chained()
      && position <= size <= capacity
      && position == index * baseSize + offset && offset < baseSize
      && index <= |nodes| && (index == |nodes| <==> position == capacity)
      && cur == if index < |nodes| then nodes[index] else null
    }

    ghost function Chunks(): (cs: seq<seq<Byte>>)
      requires Chained()
      reads this, Repr
      ensures |cs| == |nodes| && Uniform(cs, baseSize)
    {
      seq(|nodes|, i requires 0 <= i < |nodes| && Chained() reads this, Repr => nodes[i].ptr[..])
    }

    ghost function View(): FlatView
      requires Chained()
      reads this, Repr
    {
      FlatView(baseSize, Flatten(Chunks()), position, size)
    }

    /** What is readable from the position. */
    ghost function Stream(): (s: seq<Byte>)
      requires Valid()
      reads this, Repr
      ensures |s| == size - position
    {
      CapacityIsLength();
      View().bytes[position..size]
    }

    lemma OwnsItself()
      requires Chained()
      ensures this in Repr
    {
    }

    lemma CapacityIsLength()
      requires Chained()
      ensures |View().bytes| == capacity && capacity % baseSize == 0
    {
      FlattenLength(Chunks(), baseSize);
      DivModUnique(capacity, baseSize, |nodes|, 0);
    }

    /** The cursor is node `position / baseSize`, and null exactly when the position is the capacity. */
    lemma CursorOfPosition()
      requires Valid()
      ensures cur == null <==> position == capacity
      ensures index == position / baseSize && offset == position % baseSize
      ensures cur != null ==> position / baseSize < |nodes| && cur == nodes[position / baseSize]
    {
      DivModUnique(position, baseSize, index, offset);
    }

    /** A base size of 0 makes a buffer that is not valid: any use of it divides by zero. */
    constructor (base: nat)
      ensures fresh(Repr) && baseSize == capacity == base && position == size == 0 && order == Big
      ensures Valid() <==> base > 0
      ensures base > 0 ==> View().position == View().size == 0 && |View().bytes| == base
    {
      baseSize := base;
      position := 0;
      capacity := base;
      size := 0;
      order := Big;
      var node := new Node(base);
      root := node;
      cur := node;
      nodes := [node];
      index, offset := 0, 0;
      Repr := {this, node, node.ptr};
      new;
      if base > 0 {
        FlattenLength(Chunks(), base);
      }
    }

    /** Wrapping a caller's memory: one node, all of it readable. Without any memory the buffer is not
        valid. */
    constructor Wrap(data: array<Byte>)
      ensures fresh(Repr - {data}) && baseSize == capacity == size == data.Length && position == 0 && order == Big
      ensures Valid() <==> data.Length > 0
      ensures Valid() ==> View().position == 0 && View().size == data.Length && View().bytes == data[..]
    {
      baseSize := data.Length;
      position := 0;
      capacity := data.Length;
      size := data.Length;
      order := Big;
      var node := new Node.Wrap(data);
      root := node;
      cur := node;
      nodes := [node];
      index, offset := 0, 0;
      Repr := {this, node, data};
      new;
      if data.Length > 0 {
        FlattenOne(data[..]);
        assert Chunks() == [data[..]];
      }
    }

    method Tail() returns (tmp: Node)
      requires Chained()
      ensures tmp == nodes[|nodes| - 1]
    {
      tmp := root;
      ghost var k := 0;
      while tmp.next != null
        invariant k < |nodes| && tmp == nodes[k]
        invariant tmp.next == if k + 1 < |nodes| then nodes[k + 1] else null
        decreases |nodes| - k
      {
        tmp := tmp.next;
        k := k + 1;
      }
    }

    method AppendNode(tail: Node) returns (node: Node)
      requires Chained() && tail == nodes[|nodes| - 1]
      modifies this`capacity, this`nodes, this`Repr, tail`next
      ensures Chained() && fresh(Repr - old(Repr)) && old(Repr) <= Repr
      ensures nodes == old(nodes) + [node] && capacity == old(capacity) + baseSize
      ensures Chunks()[..|old(nodes)|] == old(Chunks())
    {
      node := new Node(baseSize);
      tail.next := node;
      nodes := nodes + [node];
      Repr := Repr + {node, node.ptr};
      capacity := capacity + baseSize;
    }

    /** Appends `count` nodes and returns the first of them. */
    method AppendNodes(count: nat) returns (first: Node?)
      requires Chained()
      modifies Repr
      ensures Chained() && fresh(Repr - old(Repr)) && old(Repr) <= Repr
      ensures position == old(position) && size == old(size) && cur == old(cur) && order == old(order)
      ensures index == old(index) && offset == old(offset)
      ensures old(nodes) <= nodes && |nodes| == |old(nodes)| + count
      ensures Chunks()[..|old(nodes)|] == old(Chunks())
      ensures first == if count == 0 then null else nodes[|old(nodes)|]
    {
      var tmp := Tail();
      first := null;
      for i := 0 to count
        invariant Chained() && fresh(Repr - old(Repr)) && old(Repr) <= Repr
        invariant position == old(position) && size == old(size) && cur == old(cur) && order == old(order)
        invariant index == old(index) && offset == old(offset)
        invariant tmp == nodes[|nodes| - 1]
        invariant old(nodes) <= nodes && |nodes| == |old(nodes)| + i
        invariant Chunks()[..|old(nodes)|] == old(Chunks())
        invariant first == if i == 0 then null else nodes[|old(nodes)|]
      {
        ghost var cs := Chunks();
        tmp := AppendNode(tmp);
        assert Chunks()[..|old(nodes)|] == cs[..|old(nodes)|];
        if first == null {
          first := tmp;
        }
      }
    }

    /** Makes room for `n` bytes from the position by appending the fewest nodes that suffice. */
    method AddCapacity(n: nat)
      requires Valid()
      modifies Repr
      ensures Valid() && fresh(Repr - old(Repr)) && old(Repr) <= Repr
      ensures position == old(position) && size == old(size) && order == old(order)
      ensures |View().bytes| == capacity == Max(old(capacity), RoundUp(position + n, baseSize))
      ensures position + n <= capacity
      ensures old(View().bytes) <= View().bytes
    {
      hide RoundUp, Flatten;
      CapacityIsLength();
      RoundUpBounds(position + n, baseSize);
      var oldCap := capacity - position;
      if n == 0 || oldCap >= n {
        RoundUpLeast(position + n, baseSize, |nodes|);
        return;
      }
      ghost var cs := Chunks();
      Demand(n);
      var count := (n - oldCap + baseSize - 1) / baseSize;
      var first := AppendNodes(count);
      if oldCap == 0 {
        cur := first;
      }
      CapacityIsLength();
      GrownContents(cs);
    }

    /** The nodes that `n` bytes from the position need beyond the present ones. */
    lemma Demand(n: nat)
      requires Valid() && position + n > capacity
      ensures var count := (n - (capacity - position) + baseSize - 1) / baseSize;
              && count > 0
              && (|nodes| + count) * baseSize == RoundUp(position + n, baseSize)
    {
      var count := (n - (capacity - position) + baseSize - 1) / baseSize;
      GrowthRoundsUp(capacity, |nodes|, position + n, baseSize);
      RoundUpBounds(n - (capacity - position), baseSize);
      Distribute(|nodes|, count, baseSize);
    }

    /** Appending nodes keeps the bytes there were. */
    lemma GrownContents(cs: seq<seq<Byte>>)
      requires Chained() && |cs| <= |nodes| && Chunks()[..|cs|] == cs
      ensures Flatten(cs) <= View().bytes
    {
      assert Chunks() == cs + Chunks()[|cs|..];
      FlattenAppend(cs, Chunks()[|cs|..]);
    }

    // ----- writing -----

    /** Copies bytes into the current node. */
    method CopyIn(d: seq<Byte>)
      requires Valid() && cur != null && offset + |d| <= baseSize
      modifies cur.ptr
      ensures Valid() && position + |d| <= capacity
      ensures |View().bytes| == capacity && |old(View().bytes)| == capacity
      ensures View().bytes == Splice(old(View().bytes), position, d)
    {
      ghost var cs := Chunks();
      CapacityIsLength();
      FlattenWrite(cs, baseSize, index, offset, d);
      Memcpy(cur.ptr, position % baseSize, d) by {
        CursorOfPosition();
      }
      assert Chunks() == cs[index := Splice(cs[index], offset, d)] by {
        CursorOfPosition();
      }
      CapacityIsLength();
    }

    /** `position += m` inside the current node; the cursor moves on when the node is used up. */
    method Advance(m: nat)
      requires Valid() && cur != null && offset + m <= baseSize && position + m <= capacity
      modifies this`position, this`size, this`cur, this`index, this`offset
      ensures Valid() && position == old(position) + m && size == Max(old(size), position)
      ensures View().bytes == old(View().bytes)
      ensures offset == if old(offset) + m == baseSize then 0 else old(offset) + m
    {
      hide Flatten;
      ghost var cs := Chunks();
      StepInside(index, offset, m, baseSize, |nodes|);
      var ends := position % baseSize + m == baseSize;
      assert ends <==> offset + m == baseSize by {
        CursorOfPosition();
      }
      if ends {
        cur := cur.next;
        index, offset := index + 1, 0;
      } else {
        offset := offset + m;
      }
      position := position + m;
      if position > size {
        size := position;
      }
      assert Chunks() == cs;
    }

    /** `memcpy` into the current node, then `position_ += size`. */
    method Store(d: seq<Byte>)
      requires Valid() && cur != null && offset + |d| <= baseSize
      modifies Repr
      ensures Valid() && Repr == old(Repr) && order == old(order) && capacity == old(capacity)
      ensures Overwritten(old(View()), View(), d)
      ensures |View().bytes| == capacity
      ensures offset == if old(offset) + |d| == baseSize then 0 else old(offset) + |d|
    {
      CopyIn(d);
      Advance(|d|);
      SplicedIsOverwritten(old(View()), View(), d);
    }

    /** The body of `write` after `addCapacity`, with its locals `bpos`, `npos` and `ncap`: it stores
        the bytes that fit the current node. */
    method WritePass(d: seq<Byte>, bpos: nat, npos: nat, ncap: nat) returns (b: nat, p: nat, c: nat)
      requires Valid() && bpos < |d| && position + |d| - bpos <= capacity
      requires npos == offset && ncap == baseSize - npos
      modifies Repr
      ensures Valid() && Repr == old(Repr) && order == old(order) && capacity == old(capacity)
      ensures b == if |d| - bpos <= ncap then |d| else bpos + ncap
      ensures Overwritten(old(View()), View(), d[bpos..b]) && |View().bytes| == capacity
      ensures b < |d| ==> p == offset && c == baseSize - p
    {
      var remaining := |d| - bpos;
      if ncap >= remaining {
        b, p, c := bpos + remaining, npos, ncap;
        Store(d[bpos..b]);
      } else {
        b, p := bpos + ncap, 0;
        Store(d[bpos..b]);
        c := cur.size;
      }
    }

    /** `write` as shipped: one pass. It grows the chain for all of `d`, but stores only the bytes
        that fit the node of the position; the others are dropped. */
    method Write(d: seq<Byte>)
      requires Valid()
      modifies Repr
      ensures Valid() && fresh(Repr - old(Repr)) && old(Repr) <= Repr && order == old(order)
      ensures Overwritten(old(View()), View(), d[..Piece(baseSize, old(position), |d|)])
      ensures |View().bytes| == capacity == Max(old(capacity), RoundUp(old(position) + |d|, baseSize))
    {
      hide RoundUp, Flatten;
      ghost var f := View();
      CapacityIsLength();
      AddCapacity(|d|);
      if d != [] {
        ghost var g := View();
        CursorOfPosition();
        var npos := position % baseSize;
        var ncap := cur.size - npos;
        var b, _, _ := WritePass(d, 0, npos, ncap);
        GrownThenOverwritten(f, g, View(), d[..b]);
      }
    }

    /** The loop of `write` around that pass, iterated until the input is used up. */
    method WritePasses(d: seq<Byte>)
      requires Valid() && position + |d| <= capacity && d != []
      modifies Repr
      ensures Valid() && Repr == old(Repr) && order == old(order) && capacity == old(capacity)
      ensures Overwritten(old(View()), View(), d) && |View().bytes| == capacity
    {
      hide Flatten, Chunks;
      ghost var g := View();
      CapacityIsLength();
      CursorOfPosition();
      var npos := position % baseSize;
      var ncap := cur.size - npos;
      var bpos := 0;
      while bpos < |d|
        invariant bpos <= |d| && Valid() && Repr == old(Repr)
        invariant order == old(order) && capacity == old(capacity) == |View().bytes|
        invariant Overwritten(g, View(), d[..bpos])
        invariant bpos < |d| ==> npos == offset && ncap == baseSize - npos
      {
        ghost var h, b := View(), bpos;
        bpos, npos, ncap := WritePass(d, bpos, npos, ncap);
        OverwrittenTwice(g, h, View(), d[..b], d[b..bpos]);
        assert d[..b] + d[b..bpos] == d[..bpos];
      }
      assert d[..bpos] == d;
    }

    /** `write` with its loop. */
    method WriteLooped(d: seq<Byte>)
      requires Valid()
      modifies Repr
      ensures Valid() && fresh(Repr - old(Repr)) && old(Repr) <= Repr && order == old(order)
      ensures Overwritten(old(View()), View(), d)
      ensures |View().bytes| == capacity == Max(old(capacity), RoundUp(old(position) + |d|, baseSize))
    {
      hide RoundUp, Flatten, Chunks;
      ghost var f := View();
      CapacityIsLength();
      AddCapacity(|d|);
      if d != [] {
        ghost var g := View();
        WritePasses(d);
        GrownThenOverwritten(f, g, View(), d);
      }
    }

    // ----- reading -----

    /** The bytes inside one node are a slice of the flat sequence. */
    lemma Peek(k: nat, o: nat, m: nat)
      requires Chained() && k < |nodes| && o + m <= baseSize
      ensures k * baseSize + o + m <= |View().bytes|
      ensures nodes[k].ptr[o..o + m] == View().bytes[k * baseSize + o..k * baseSize + o + m]
    {
      FlattenRead(Chunks(), baseSize, k, o, m);
      assert Chunks()[k][o..o + m] == nodes[k].ptr[o..o + m];
    }

    /** The body of `read`: the bytes that lie in the current node, at most `n`. */
    method ReadPass(n: nat, npos: nat, ncap: nat) returns (d: seq<Byte>, p: nat, c: nat)
      requires Valid() && n > 0 && position + n <= size && npos == offset && ncap == baseSize - npos
      modifies this`position, this`size, this`cur, this`index, this`offset
      ensures Valid() && size == old(size) && position == old(position) + |d|
      ensures View().bytes == old(View().bytes) && position <= |View().bytes|
      ensures |d| == (if n <= ncap then n else ncap) && d == View().bytes[old(position)..position]
      ensures |d| < n ==> p == offset && c == baseSize - p
    {
      if ncap >= n {
        Peek(index, npos, n);
        d, p, c := cur.ptr[npos..npos + n], npos, ncap;
        Advance(n);
      } else {
        Peek(index, npos, ncap);
        d, p := cur.ptr[npos..npos + ncap], 0;
        Advance(ncap);
        c := cur.size;
      }
    }

    /** `read` at the position. */
    method Read(n: nat) returns (r: Outcome<seq<Byte>>)
      requires Valid()
      modifies this`position, this`size, this`cur, this`index, this`offset
      ensures Valid() && size == old(size) && View().bytes == old(View().bytes)
      ensures |View().bytes| == capacity
      ensures r == if n > size - old(position) then OutOfRange
                   else if n == 0 && old(position) == capacity then NullCursor
                   else Done(View().bytes[old(position)..old(position) + n])
      ensures position == old(position) + if r.Done? then n else 0
    {
      CapacityIsLength();
      if n > size - position {
        return OutOfRange;
      }
      if cur == null {
        return NullCursor;
      }
      CursorOfPosition();
      var npos: nat := position % baseSize;
      var ncap: nat := cur.size - npos;
      var out := [];
      ghost var bytes := View().bytes;
      while |out| < n
        invariant |out| <= n && Valid() && size == old(size) && position == old(position) + |out|
        invariant View().bytes == bytes && out == bytes[old(position)..position]
        invariant |out| < n ==> npos == offset && ncap == baseSize - npos
        decreases n - |out|
      {
        var d;
        d, npos, ncap := ReadPass(n - |out|, npos, ncap);
        out := out + d;
      }
      r := Done(out);
    }

    /** One pass of the positional `read`: the bytes from `npos` of node `k`, at most `n`. Behind the last
        node there is no next one to take the capacity from. */
    method ReadStep(c: Node, ghost k: nat, npos: nat, ncap: nat, n: nat, ghost at: nat)
      returns (d: seq<Byte>, c': Node?, ghost k': nat)
      requires Chained() && n > 0
      requires k < |nodes| && c == nodes[k] && npos < baseSize && ncap == baseSize - npos
      requires at == k * baseSize + npos
      ensures |d| == (if n <= ncap then n else ncap)
      ensures at + |d| <= |View().bytes| && d == View().bytes[at..at + |d|]
      ensures |d| < n ==> k' == k + 1 && c' == (if k' < |nodes| then nodes[k'] else null)
      ensures |d| < n ==> at + |d| == k' * baseSize && (c' == null <==> at + |d| == capacity)
    {
      c', k' := c, k;
      CapacityIsLength();
      StepInside(k, npos, if n <= ncap then n else ncap, baseSize, |nodes|);
      if ncap >= n {
        Peek(k, npos, n);
        d := c.ptr[npos..npos + n];
      } else {
        Peek(k, npos, ncap);
        d := c.ptr[npos..npos + ncap];
        assert k + 1 < |nodes| ==> nodes[k].next == nodes[k + 1];
        c', k' := c.next, k + 1;
      }
    }

    /** Where the positional `read` starts for `p`: at the offset of `p`, but in the cursor's node. */
    ghost function WalkStart(p: nat): (from: nat)
      requires Valid()
      reads this, Repr
    {
      Divide(p, baseSize);
      index * baseSize + p % baseSize
    }

    /** The positional `read`. It returns the slice at `WalkStart(p)`, and dereferences null if there is
        no cursor's node or the walk leaves the chain. */
    method ReadAt(n: nat, p: nat) returns (r: Outcome<seq<Byte>>)
      requires Valid()
      ensures |View().bytes| == capacity
      ensures r == if n > size - position then OutOfRange
                   else if position == capacity || WalkStart(p) + n > capacity then NullCursor
                   else Done(View().bytes[WalkStart(p)..WalkStart(p) + n])
    {
      CapacityIsLength();
      if n > size - position {
        return OutOfRange;
      }
      if cur == null {
        return NullCursor;
      }
      Divide(p, baseSize);
      var npos: nat := p % baseSize;
      ghost var from := WalkStart(p);
      StepInside(index, npos, 0, baseSize, |nodes|);
      r := ReadFrom(cur, index, npos, n, from);
    }

    method ReadFrom(start: Node, ghost first: nat, startOffset: nat, n: nat, ghost from: nat)
      returns (r: Outcome<seq<Byte>>)
      requires Chained() && first < |nodes| && start == nodes[first] && startOffset < baseSize
      requires from == first * baseSize + startOffset && from < capacity
      ensures |View().bytes| == capacity
      ensures r == if from + n > capacity then NullCursor else Done(View().bytes[from..from + n])
    {
      hide Flatten, Chunks;
      CapacityIsLength();
      var c: Node? := start;
      var npos: nat, ncap: nat := startOffset, start.size - startOffset;
      ghost var k: nat := first;
      var out := [];
      ghost var bytes := View().bytes;
      while |out| < n
        invariant |out| <= n && from + |out| <= capacity && out == bytes[from..from + |out|]
        invariant |out| < n ==> k < |nodes| && c == nodes[k] && npos < baseSize && ncap == baseSize - npos
        invariant |out| < n ==> from + |out| == k * baseSize + npos
        decreases n - |out|
      {
        var d;
        d, c, k := ReadStep(c, k, npos, ncap, n - |out|, from + |out|);
        out := out + d;
        if |out| < n {
          if c == null {
            return NullCursor;
          }
          npos, ncap := 0, c.size;
        }
      }
      r := Done(out);
    }

    /** That is the slice at `p`, whatever the bytes are, if and only if nothing is read or `p` lies in
        the cursor's node. */
    lemma ReadAtIsAtP(n: nat, p: nat)
      requires Valid() && position < capacity && p + n <= capacity && WalkStart(p) + n <= capacity
      ensures n == 0 || p / baseSize == position / baseSize
         <==> forall bytes: seq<Byte> | |bytes| == capacity ::
                bytes[WalkStart(p)..WalkStart(p) + n] == bytes[p..p + n]
    {
      CursorOfPosition();
      Divide(p, baseSize);
      var from, k := WalkStart(p), p / baseSize;
      if n > 0 && k != index {
        Apart(from, p, k, index, p % baseSize);
        var bytes := seq(capacity, i => if i == p then 1 else 0);
        assert bytes[from..from + n][0] == 0 && bytes[p..p + n][0] == 1;
      }
    }

    lemma Apart(from: nat, p: nat, k: nat, i: nat, o: nat)
      requires baseSize > 0 && k != i && p == k * baseSize + o && from == i * baseSize + o
      ensures from != p
    {
      if k < i {
        MulMonotone(k + 1, i, baseSize);
      } else {
        MulMonotone(i + 1, k, baseSize);
      }
    }

    method ToString() returns (r: Outcome<seq<Byte>>)
      requires Valid()
      ensures |View().bytes| == capacity && r == Done(View().bytes[position..size])
    {
      CapacityIsLength();
      if size == position {
        r := Done([]);
        assert View().bytes[position..size] == [];
      } else {
        CursorOfPosition();
        assert WalkStart(position) == position;
        r := ReadAt(size - position, position);
      }
    }

    // ----- positioning -----

    /** The walk of `setPosition` from the root to the node of `v`. */
    method Locate(v: nat) returns (c: Node?, ghost k: nat, ghost o: nat)
      requires Chained() && v <= capacity
      ensures v == k * baseSize + o && o < baseSize
      ensures k <= |nodes| && (k == |nodes| <==> v == capacity)
      ensures c == if k < |nodes| then nodes[k] else null
    {
      c, k := root, 0;
      var rest: nat := v;
      while rest > c.size
        invariant k < |nodes| && c == nodes[k] && v == k * baseSize + rest
        decreases rest
      {
        Reaches(k, rest, baseSize, |nodes|);
        rest := rest - c.size;
        c := c.next;
        k := k + 1;
      }
      Reaches(k, rest, baseSize, |nodes|);
      o := rest;
      if rest == c.size {
        c := c.next;
        k, o := k + 1, 0;
      }
    }

    /** The assignments of `setPosition`. */
    method Relocate(v: nat, c: Node?, ghost k: nat, ghost o: nat)
      requires Valid() && v <= capacity && v == k * baseSize + o && o < baseSize
      requires k <= |nodes| && (k == |nodes| <==> v == capacity)
      requires c == if k < |nodes| then nodes[k] else null
      modifies this`position, this`size, this`cur, this`index, this`offset
      ensures Valid() && position == v && size == Max(old(size), v)
      ensures View().bytes == old(View().bytes)
    {
      ghost var cs := Chunks();
      position := v;
      if position > size {
        size := position;
      }
      cur, index, offset := c, k, o;
      assert Chunks() == cs;
    }

    /** `setPosition`; a position beyond the capacity is refused (`std::out_of_range`). */
    method SetPosition(v: nat) returns (ok: bool)
      requires Valid()
      modifies this`position, this`size, this`cur, this`index, this`offset
      ensures Valid() && View().bytes == old(View().bytes)
      ensures ok <==> v <= capacity
      ensures if ok then position == v && size == Max(old(size), v)
              else position == old(position) && size == old(size)
    {
      if v > capacity {
        return false;
      }
      var c, k, o := Locate(v);
      Relocate(v, c, k, o);
      ok := true;
    }

    /** `clear` drops every node but the first. */
    method Clear()
      requires Valid()
      modifies this, root
      ensures Valid() && Repr == old(Repr) && order == old(order) && root == old(root)
      ensures View() == FlatView(baseSize, old(View().bytes[..baseSize]), 0, 0)
    {
      ghost var first := Chunks()[0];
      assert old(View().bytes[..baseSize]) == first by {
        FlattenAround(Chunks(), baseSize, 0);
      }
      position, size := 0, 0;
      capacity := baseSize;
      root.next := null;
      cur := root;
      nodes := [root];
      index, offset := 0, 0;
      assert Chunks() == [first];
      FlattenOne(first);
    }

    // ----- scatter and gather -----

    /** The i/o vectors are these cuts of the chain. */
    ghost predicate Locates(iovs: seq<IoVec>, cuts: seq<Cut>)
      reads this
    {
      && |iovs| == |cuts|
      && forall i :: 0 <= i < |cuts| ==>
           cuts[i].node < |nodes| && iovs[i] == IoVec(nodes[cuts[i].node].ptr, cuts[i].off, cuts[i].len)
    }

    /** The loop that `getReadBuffers` (both forms) and `getWriteBuffers` share, on a range that ends
        within the chain. */
    method Walk(start: Node, ghost first: nat, startOffset: nat, n: nat, ghost from: nat) returns (iovs: seq<IoVec>)
      requires Chained() && first < |nodes| && start == nodes[first] && startOffset < baseSize
      requires from == first * baseSize + startOffset && from + n <= capacity
      ensures Locates(iovs, Cuts(baseSize, from, n))
      ensures InRange(iovs) && |View().bytes| == capacity && Joined(iovs) == View().bytes[from..from + n]
    {
      var r := WalkNodes(start, first, startOffset, n, from);
      iovs := r.value;
      VectorsAreSlice(iovs, from, n);
    }

    /** The loop itself. A range that runs past the chain makes it dereference the null after the last
        node. */
    method WalkNodes(start: Node, ghost first: nat, startOffset: nat, n: nat, ghost from: nat)
      returns (r: Outcome<seq<IoVec>>)
      requires Chained() && first < |nodes| && start == nodes[first] && startOffset < baseSize
      requires from == first * baseSize + startOffset
      ensures if n == 0 || from + n <= capacity then r.Done? && Locates(r.value, Cuts(baseSize, from, n))
              else r == NullCursor
    {
      hide Cuts, Flatten, Chunks;
      NoCuts(from + n);
      var c: Node? := start;
      var npos: nat, ncap: nat, len: nat := startOffset, start.size - startOffset, n;
      ghost var k: nat, pos: nat := first, from;
      ghost var done: seq<Cut> := [];
      var iovs := [];
      while len > 0
        invariant Locates(iovs, done)
        invariant Cuts(baseSize, from, n) == done + Cuts(baseSize, pos, len)
        invariant pos + len == from + n && (n > 0 && len == 0 ==> pos <= capacity)
        invariant len > 0 ==> k < |nodes| && c == nodes[k] && npos < baseSize && ncap == baseSize - npos
        invariant len > 0 ==> pos == k * baseSize + npos
        decreases len
      {
        CutsStep(pos, k, npos, len);
        if ncap >= len {
          EndsInside(k, npos, len, baseSize, |nodes|);
          iovs := iovs + [IoVec(c.ptr, npos, len)];
          done := done + [Cut(k, npos, len)];
          pos, len := pos + len, 0;
        } else {
          StepInside(k, npos, ncap, baseSize, |nodes|);
          iovs := iovs + [IoVec(c.ptr, npos, ncap)];
          done := done + [Cut(k, npos, ncap)];
          len, pos := len - ncap, pos + ncap;
          assert k + 1 < |nodes| ==> nodes[k].next == nodes[k + 1];
          c, k := c.next, k + 1;
          if c == null {
            return NullCursor;
          }
          ncap, npos := c.size, 0;
        }
      }
      r := Done(iovs);
    }

    lemma NoCuts(pos: nat)
      requires baseSize > 0
      ensures Cuts(baseSize, pos, 0) == []
    {
    }

    lemma CutsStep(pos: nat, k: nat, npos: nat, len: nat)
      requires baseSize > 0 && npos < baseSize && pos == k * baseSize + npos && len > 0
      ensures var m := if len <= baseSize - npos then len else baseSize - npos;
              Cuts(baseSize, pos, len) == [Cut(k, npos, m)] + Cuts(baseSize, pos + m, len - m)
    {
      DivModUnique(pos, baseSize, k, npos);
    }

    /** The vectors of a range stand for that slice of the flat sequence. */
    lemma VectorsAreSlice(iovs: seq<IoVec>, pos: nat, n: nat)
      requires Chained() && pos + n <= capacity && Locates(iovs, Cuts(baseSize, pos, n))
      ensures InRange(iovs) && |View().bytes| == capacity
      ensures Joined(iovs) == View().bytes[pos..pos + n]
    {
      CapacityIsLength();
      CutsActFlat(Chunks(), baseSize, pos, View().bytes[pos..pos + n]);
      JoinedGathers(iovs, Cuts(baseSize, pos, n));
    }

    lemma {:induction false} JoinedGathers(iovs: seq<IoVec>, cuts: seq<Cut>)
      requires Chained() && Locates(iovs, cuts) && Fitting(cuts, Chunks(), baseSize)
      ensures InRange(iovs) && Joined(iovs) == Gather(Chunks(), baseSize, cuts)
      decreases |iovs|
    {
      forall v | v in iovs
        ensures v.offset + v.len <= v.base.Length
      {
        var i :| 0 <= i < |iovs| && iovs[i] == v;
        assert Fits(cuts[i], Chunks(), baseSize);
      }
      if iovs != [] {
        JoinedGathers(iovs[1..], cuts[1..]);
      }
    }

    /** `getReadBuffers` from the cursor: the readable bytes, at most `n`, without moving. */
    method GetReadBuffers(n: nat) returns (iovs: seq<IoVec>, total: nat)
      requires Valid()
      ensures total == if n > size - position then size - position else n
      ensures Locates(iovs, Cuts(baseSize, position, total))
      ensures InRange(iovs) && |View().bytes| == capacity
      ensures Joined(iovs) == View().bytes[position..position + total]
    {
      total := if n > size - position then size - position else n;
      iovs := WalkFromCursor(total);
    }

    /** `count` links from the root. Following them past the end, or taking the size of what is there,
        dereferences null: that is the answer null here. */
    method NodeAt(count: nat) returns (c: Node?)
      requires Chained()
      ensures c == if count < |nodes| then nodes[count] else null
    {
      c := root;
      var left: nat := count;
      ghost var k := 0;
      while left > 0
        invariant k + left == count && k < |nodes| && c == nodes[k]
        decreases left
      {
        assert if k + 1 < |nodes| then nodes[k].next == nodes[k + 1] else nodes[k].next == null;
        c, k := c.next, k + 1;
        if c == null {
          return null;
        }
        left := left - 1;
      }
    }

    method PlaceOf(p: nat) returns (count: nat, npos: nat)
      requires Chained()
      ensures npos < baseSize && p == count * baseSize + npos
      ensures count < |nodes| <==> p < capacity
    {
      hide Chained;
      ChainedCapacity();
      Divide(p, baseSize);
      count, npos := p / baseSize, p % baseSize;
      PlaceInside(p, count, npos, baseSize, |nodes|);
    }

    lemma ChainedCapacity()
      requires Chained()
      ensures baseSize > 0 && capacity == |nodes| * baseSize
    {
    }

    /** `getReadBuffers` from `p`: the length is clipped to what is readable from the position, not
        from `p`. If anything is left to cover, a range that runs past the chain dereferences null. */
    method GetReadBuffersAt(n: nat, p: nat) returns (r: Outcome<seq<IoVec>>, total: nat)
      requires Valid()
      ensures total == if n > size - position then size - position else n
      ensures total == 0 ==> r == Done([])
      ensures total > 0 && p + total > capacity ==> r == NullCursor
      ensures total > 0 && p + total <= capacity ==> r.Done? && Covers(r.value, p, total)
    {
      total := if n > size - position then size - position else n;
      if total == 0 {
        return Done([]), 0;
      }
      hide Covers;
      r := WalkFromRoot(total, p);
    }

    method WalkFromRoot(n: nat, p: nat) returns (r: Outcome<seq<IoVec>>)
      requires Chained() && n > 0
      ensures if p + n <= capacity then r.Done? && Covers(r.value, p, n) else r == NullCursor
    {
      hide Cuts, Flatten, Chunks, Joined;
      var count, npos := PlaceOf(p);
      var c := NodeAt(count);
      if c == null {
        return NullCursor;
      }
      r := WalkNodes(c, count, npos, n, p);
      if p + n <= capacity {
        VectorsAreSlice(r.value, p, n);
      }
    }

    /** The vectors are the tiles of this range of the flat sequence, and joined they are its bytes. */
    ghost predicate Covers(iovs: seq<IoVec>, p: nat, n: nat)
      requires Chained()
      reads this, Repr, set v | v in iovs :: v.base
    {
      && Locates(iovs, Cuts(baseSize, p, n))
      && p + n <= |View().bytes| == capacity
      && InRange(iovs) && Joined(iovs) == View().bytes[p..p + n]
    }

    /** `getWriteBuffers`: room for `n` bytes from the position, as cuts. */
    method GetWriteBuffers(n: nat) returns (iovs: seq<IoVec>, total: nat)
      requires Valid()
      modifies Repr
      ensures Valid() && fresh(Repr - old(Repr)) && old(Repr) <= Repr && order == old(order)
      ensures position == old(position) && size == old(size)
      ensures |View().bytes| == capacity == Max(old(capacity), RoundUp(position + n, baseSize))
      ensures position + n <= capacity && old(View().bytes) <= View().bytes
      ensures total == n && Locates(iovs, Cuts(baseSize, position, n))
    {
      AddCapacity(n);
      total := n;
      iovs := WalkFromCursor(n);
    }

    method WalkFromCursor(n: nat) returns (iovs: seq<IoVec>)
      requires Valid() && position + n <= capacity
      ensures Locates(iovs, Cuts(baseSize, position, n))
      ensures InRange(iovs) && |View().bytes| == capacity
      ensures Joined(iovs) == View().bytes[position..position + n]
    {
      if n == 0 {
        CapacityIsLength();
        iovs := [];
      } else {
        CursorOfPosition();
        iovs := Walk(cur, index, position % baseSize, n, position);
      }
    }

    /** Filling one i/o vector. */
    method FillOne(v: IoVec, ghost c: Cut, d: seq<Byte>)
      requires Valid() && c.node < |nodes| && v == IoVec(nodes[c.node].ptr, c.off, c.len)
      requires |d| == c.len && c.off + c.len <= baseSize
      modifies v.base
      ensures Valid() && Fits(c, old(Chunks()), baseSize)
      ensures Chunks() == FillCut(old(Chunks()), baseSize, c, d)
    {
      ghost var before := Chunks();
      Memcpy(v.base, v.offset, d);
      assert Chunks() == FillCut(before, baseSize, c, d);
    }

    /** Filling i/o vectors in order. */
    method FillCuts(iovs: seq<IoVec>, ghost cuts: seq<Cut>, d: seq<Byte>)
      requires Valid() && Locates(iovs, cuts) && Fitting(cuts, Chunks(), baseSize) && |d| == TotalLength(cuts)
      modifies set n | n in nodes :: n.ptr
      ensures Valid() && Chunks() == Scatter(old(Chunks()), baseSize, cuts, d)
    {
      hide Fits, FillCut, TotalLength, Flatten;
      ghost var cs := Chunks();
      var rest := d;
      for i := 0 to |iovs|
        invariant Valid()
        invariant Fitting(cuts[i..], Chunks(), baseSize) && |rest| == TotalLength(cuts[i..])
        invariant Scatter(Chunks(), baseSize, cuts[i..], rest) == Scatter(cs, baseSize, cuts, d)
      {
        ScatterStep(Chunks(), baseSize, cuts[i..], rest);
        assert cuts[i..][0] == cuts[i] && cuts[i..][1..] == cuts[i + 1..];
        FirstLength(cuts[i..]);
        var v := iovs[i];
        InNode(cuts[i]);
        FillOne(v, cuts[i], rest[..v.len]);
        rest := rest[v.len..];
      }
      assert cuts[|iovs|..] == [];
    }

    lemma InNode(c: Cut)
      requires Chained() && Fits(c, Chunks(), baseSize)
      ensures c.off + c.len <= baseSize
    {
    }

    /** Filling the write buffers, as `readv` does for the caller. */
    method FillBuffers(iovs: seq<IoVec>, d: seq<Byte>)
      requires Valid() && position + |d| <= capacity
      requires Locates(iovs, Cuts(baseSize, position, |d|))
      modifies set n | n in nodes :: n.ptr
      ensures Valid() && |View().bytes| == capacity == |old(View().bytes)|
      ensures View().bytes == Splice(old(View().bytes), position, d)
    {
      hide Scatter, Gather, Flatten, TotalLength, Splice, Cuts, Fits;
      CutsActFlat(Chunks(), baseSize, position, d);
      FillCuts(iovs, Cuts(baseSize, position, |d|), d);
      CapacityIsLength();
    }

    /** Obtaining write buffers, filling them and moving the position behind them stores the bytes
        just as the looped `write` does. */
    method WriteThroughBuffers(d: seq<Byte>)
      requires Valid()
      modifies Repr
      ensures Valid() && fresh(Repr - old(Repr)) && old(Repr) <= Repr && order == old(order)
      ensures Overwritten(old(View()), View(), d)
      ensures |View().bytes| == capacity == Max(old(capacity), RoundUp(old(position) + |d|, baseSize))
    {
      hide RoundUp, Chunks, Flatten, Cuts, Splice, Max;
      ghost var f := View();
      CapacityIsLength();
      var iovs, _ := GetWriteBuffers(|d|);
      ghost var g := View();
      FillBuffers(iovs, d);
      var _ := SetPosition(position + |d|);
      SplicedIsOverwritten(g, View(), d);
      GrownThenOverwritten(f, g, View(), d);
    }
  }
}
