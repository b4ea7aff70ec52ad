/** The memory kernel of mclib.c: AplCopyMemory, a memmove with a word path. */
module CopyMemory {

  type Byte = bv8

  const WMASK: bv32 := 3

  /** What a move must leave behind: the source bytes at dst, all else as it was. */
  function Moved(m: seq<Byte>, dst: nat, src: nat, n: nat): seq<Byte>
    requires dst + n <= |m| && src + n <= |m|
  {
    m[..dst] + m[src..src + n] + m[dst + n..]
  }

  /** The destination cells lo..hi already hold the bytes delta further on, nothing else is touched. */
  ghost predicate Partly(mem: array<Byte>, m: seq<Byte>, delta: int, lo: int, hi: int)
    requires 0 <= lo <= hi && 0 <= lo + delta && hi + delta <= |m| && hi <= |m|
    reads mem
  {
    && mem.Length == |m|
    && (forall i {:trigger mem[i]} :: lo <= i < hi ==> mem[i] == m[i + delta])
    && (forall i {:trigger mem[i]} :: 0 <= i < |m| && !(lo <= i < hi) ==> mem[i] == m[i])
  }

  lemma WhollyMoved(mem: array<Byte>, m: seq<Byte>, dst: nat, src: nat, n: nat)
    requires dst + n <= |m| && src + n <= |m| && Partly(mem, m, src - dst, dst, dst + n)
    ensures mem[..] == Moved(m, dst, src, n)
  {
  }

  /** An address in the four bytes around it; the tests below use nothing else of it. */
  function LowPart(a: nat): (b: bv32)
    ensures b & WMASK == b
  {
    match a % 4
    case 0 => 0
    case 1 => 1
    case 2 => 2
    case _ => 3
  }

  /** The two tests are about remainders: some low bit is set, the low bits differ. */
  lemma LowBits(s: nat, d: nat)
    ensures (LowPart(s) | LowPart(d)) & WMASK == 0 <==> s % 4 == 0 && d % 4 == 0
    ensures (LowPart(s) ^ LowPart(d)) & WMASK == 0 <==> s % 4 == d % 4
  {
  }

  /** The tests that the source makes on the low bits of its two pointers. */
  method TestAddresses(src: nat, dst: nat) returns (some: bool, differ: bool)
    ensures some <==> src % 4 != 0 || dst % 4 != 0
    ensures differ <==> src % 4 != dst % 4
  {
    LowBits(src, dst);
    var s, d := LowPart(src), LowPart(dst);
    some := (s | d) & WMASK != 0;
    differ := (s ^ d) & WMASK != 0;
  }

  /** One word store of one word load: all four bytes are read before any is written. */
  method CopyWord(mem: array<Byte>, dst: nat, src: nat)
    requires dst % 4 == 0 && src % 4 == 0
    requires dst + 4 <= mem.Length && src + 4 <= mem.Length
    modifies mem
    ensures forall i {:trigger mem[i]} :: dst <= i < dst + 4 ==> mem[i] == old(mem[i + (src - dst)])
    ensures forall i {:trigger mem[i]} :: 0 <= i < mem.Length && !(dst <= i < dst + 4) ==> mem[i] == old(mem[i])
  {
    mem[dst], mem[dst + 1], mem[dst + 2], mem[dst + 3] := mem[src], mem[src + 1], mem[src + 2], mem[src + 3];
  }

  // The four counted loops of the source. Each carries the part already in
  // place over to a larger part; m is the memory when the move began.

  method BytesUp(mem: array<Byte>, dst: nat, src: nat, t: nat, ghost m: seq<Byte>, ghost start: nat, ghost delta: int)
    requires start <= dst < src == dst + delta && src + t <= mem.Length == |m|
    requires Partly(mem, m, delta, start, dst)
    modifies mem
    ensures Partly(mem, m, delta, start, dst + t)
  {
    for k := 0 to t
      invariant Partly(mem, m, delta, start, dst + k)
    {
      mem[dst + k] := mem[src + k];
    }
  }

  method WordsUp(mem: array<Byte>, dst: nat, src: nat, t: nat, ghost m: seq<Byte>, ghost start: nat, ghost delta: int)
    requires t > 0 ==> dst % 4 == 0 && src % 4 == 0
    requires start <= dst < src == dst + delta && src + 4 * t <= mem.Length == |m|
    requires Partly(mem, m, delta, start, dst)
    modifies mem
    ensures Partly(mem, m, delta, start, dst + 4 * t)
  {
    for k := 0 to t
      invariant Partly(mem, m, delta, start, dst + 4 * k)
    {
      CopyWord(mem, dst + 4 * k, src + 4 * k);
    }
  }

  method BytesDown(mem: array<Byte>, dst: nat, src: nat, t: nat, ghost m: seq<Byte>, ghost end: nat, ghost delta: int)
    requires src == dst + delta && t <= src < dst <= end <= mem.Length == |m|
    requires Partly(mem, m, delta, dst, end)
    modifies mem
    ensures Partly(mem, m, delta, dst - t, end)
  {
    for k := 0 to t
      invariant Partly(mem, m, delta, dst - k, end)
    {
      mem[dst - k - 1] := mem[src - k - 1];
    }
  }

  method WordsDown(mem: array<Byte>, dst: nat, src: nat, t: nat, ghost m: seq<Byte>, ghost end: nat, ghost delta: int)
    requires t > 0 ==> dst % 4 == 0 && src % 4 == 0
    requires src == dst + delta && 4 * t <= src < dst <= end <= mem.Length == |m|
    requires Partly(mem, m, delta, dst, end)
    modifies mem
    ensures Partly(mem, m, delta, dst - 4 * t, end)
  {
    for k := 0 to t
      invariant Partly(mem, m, delta, dst - 4 * k, end)
    {
      CopyWord(mem, dst - 4 * k - 4, src - 4 * k - 4);
    }
  }

  /**
   * How many bytes to copy singly before whole words can be used, from the
   * addresses' low bits. The loop it feeds is a do-while, so it is either not
   * entered or the count is positive.
   */
  method HeadUp(dst: nat, src: nat, length: nat) returns (t: nat)
    requires length > 0
    ensures t <= length
    ensures length - t >= 4 ==> (dst + t) % 4 == 0 && (src + t) % 4 == 0
  {
    var some, differ := TestAddresses(src, dst);
    t := 0;
    if some {
      if differ || length < 4 {
        t := length;
      } else {
        t := 4 - src % 4;
      }
      assert t > 0;
    }
  }

  method HeadDown(dst: nat, src: nat, length: nat) returns (t: nat)
    requires 0 < length <= src && length <= dst
    ensures t <= length
    ensures length - t >= 4 ==> (dst - t) % 4 == 0 && (src - t) % 4 == 0
  {
    var some, differ := TestAddresses(src, dst);
    t := 0;
    if some {
      if differ || length <= 4 {
        t := length;
      } else {
        t := src % 4;
      }
      assert t > 0;
    }
  }

  /** The source's forward half, for a destination below the source. */
  method MoveUp(mem: array<Byte>, destination: nat, source: nat, size: nat)
    requires destination < source && source + size <= mem.Length && size > 0
    modifies mem
    ensures Partly(mem, old(mem[..]), source - destination, destination, destination + size)
  {
    ghost var m, delta := mem[..], source - destination;
    var dst, src, length := destination, source, size;
    var t := HeadUp(dst, src, length);
    length := length - t;
    BytesUp(mem, dst, src, t, m, destination, delta);
    dst, src := dst + t, src + t;
    t := length / 4;
    assert t > 0 ==> length >= 4;
    assert 4 * t <= length && src + length == source + size;
    WordsUp(mem, dst, src, t, m, destination, delta);
    dst, src := dst + 4 * t, src + 4 * t;
    t := length % 4;
    assert dst + t == destination + size;
    BytesUp(mem, dst, src, t, m, destination, delta);
  }

  /** The source's backward half: both pointers start behind their regions. */
  method MoveDown(mem: array<Byte>, destination: nat, source: nat, size: nat)
    requires source < destination && destination + size <= mem.Length && size > 0
    modifies mem
    ensures Partly(mem, old(mem[..]), source - destination, destination, destination + size)
  {
    ghost var m, delta, end := mem[..], source - destination, destination + size;
    var dst, src, length := destination + size, source + size, size;
    var t := HeadDown(dst, src, length);
    length := length - t;
    BytesDown(mem, dst, src, t, m, end, delta);
    dst, src := dst - t, src - t;
    t := length / 4;
    assert t > 0 ==> length >= 4;
    assert 4 * t <= length && src == source + length;
    WordsDown(mem, dst, src, t, m, end, delta);
    dst, src := dst - 4 * t, src - 4 * t;
    t := length % 4;
    assert dst - t == destination;
    BytesDown(mem, dst, src, t, m, end, delta);
  }

  /**
   * The move. mem is the address space, destination and source are addresses in
   * it, and the two regions may overlap in any way.
   */
  method Move(mem: array<Byte>, destination: nat, source: nat, size: nat) returns (rv: nat)
    requires destination + size <= mem.Length && source + size <= mem.Length
    modifies mem
    ensures mem[..] == Moved(old(mem[..]), destination, source, size)
    ensures forall i {:trigger mem[i]} :: destination <= i < destination + size ==> mem[i] == old(mem[i - destination + source])
    ensures forall i :: 0 <= i < mem.Length && !(destination <= i < destination + size) ==> mem[i] == old(mem[i])
    ensures rv == destination
  {
    if size != 0 && destination != source {
      if destination < source {
        MoveUp(mem, destination, source, size);
      } else {
        MoveDown(mem, destination, source, size);
      }
      WhollyMoved(mem, old(mem[..]), destination, source, size);
    }
    return destination;
  }

  // ----- Why the direction matters -----

  /** Copying n bytes one by one from the lowest up. */
  function Ascending(m: seq<Byte>, dst: nat, src: nat, n: nat): (r: seq<Byte>)
    requires dst + n <= |m| && src + n <= |m|
    ensures |r| == |m|
    decreases n
  {
    if n == 0 then m
    else
      var k := n - 1;
      var r := Ascending(m, dst, src, k);
      r[dst + k := r[src + k]]
  }

  lemma {:induction false} AscendingAt(m: seq<Byte>, dst: nat, src: nat, n: nat, i: nat)
    requires dst + n <= |m| && src + n <= |m| && i < |m|
    requires !(src < dst < src + n)
    ensures Ascending(m, dst, src, n)[i] == if dst <= i < dst + n then m[src + (i - dst)] else m[i]
    decreases n
  {
    if n > 0 {
      AscendingAt(m, dst, src, n - 1, i);
      AscendingAt(m, dst, src, n - 1, src + n - 1);
    }
  }

  lemma AscendingMoves(m: seq<Byte>, dst: nat, src: nat, n: nat)
    requires dst + n <= |m| && src + n <= |m|
    requires !(src < dst < src + n)
    ensures Ascending(m, dst, src, n) == Moved(m, dst, src, n)
  {
    forall i | 0 <= i < |m|
      ensures Ascending(m, dst, src, n)[i] == Moved(m, dst, src, n)[i]
    {
      AscendingAt(m, dst, src, n, i);
    }
  }

  /** A cell written by the ascending copy is not written again. */
  lemma {:induction false} AscendingKeeps(m: seq<Byte>, dst: nat, src: nat, n: nat, j: nat)
    requires dst + n <= |m| && src + n <= |m| && j < n
    ensures Ascending(m, dst, src, n)[dst + j] == Ascending(m, dst, src, j + 1)[dst + j]
    decreases n
  {
    if j + 1 < n {
      AscendingKeeps(m, dst, src, n - 1, j);
    }
  }

  lemma AscendingSmears(size: nat, dst: nat, src: nat, n: nat) returns (m: seq<Byte>)
    requires dst + n <= size && src + n <= size && src < dst < src + n
    ensures |m| == size && Ascending(m, dst, src, n)[dst + (dst - src)] != m[dst]
  {
    m := seq(size, i => if i == src then 1 else 0);
    var d := dst - src;
    AscendingKeeps(m, dst, src, n, d);
    AscendingKeeps(m, dst, src, d, 0);
    assert Ascending(m, dst, src, 1)[dst] == 1;
  }

  /**
   * One ascending pass is a move for every content of a memory of the given
   * size exactly when the destination does not begin inside the source.
   */
  lemma AscendingIsRightIff(size: nat, dst: nat, src: nat, n: nat)
    requires dst + n <= size && src + n <= size
    ensures (forall m: seq<Byte> :: |m| == size ==> Ascending(m, dst, src, n) == Moved(m, dst, src, n))
      <==> !(src < dst < src + n)
  {
    if src < dst < src + n {
      var m := AscendingSmears(size, dst, src, n);
      assert Moved(m, dst, src, n)[dst + (dst - src)] == m[dst];
      assert Ascending(m, dst, src, n) != Moved(m, dst, src, n);
    } else {
      forall m: seq<Byte> | |m| == size
        ensures Ascending(m, dst, src, n) == Moved(m, dst, src, n)
      {
        AscendingMoves(m, dst, src, n);
      }
    }
  }
}
