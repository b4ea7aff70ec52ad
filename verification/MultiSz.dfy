/**
 * Multi-strings: non-empty C strings one behind the other, ended by an empty
 * one (utils.c). Offsets count characters; a DWORD length counts bytes of wide
 * characters where the source does.
 */
module MultiSz {
  import opened CStrings

  /** The size of a wide character. */
  const WCHAR_SIZE: nat := 2

  /** Walking from p, string after string, an empty string is reached inside the buffer. */
  predicate IsMultiSz(a: seq<char>, p: int)
    decreases |a| - p
  {
    IsCString(a, p) && (a[p] != NUL ==> IsMultiSz(a, p + StrLen(a, p) + 1))
  }

  /** The strings met on that walk. */
  function Strings(a: seq<char>, p: nat): seq<string>
    requires IsMultiSz(a, p)
    decreases |a| - p
  {
    if a[p] == NUL then [] else [Text(a, p)] + Strings(a, p + StrLen(a, p) + 1)
  }

  /** The cells taken by the strings from index k on, each with its NUL. */
  function Size(xs: seq<string>, k: nat): nat
    requires k <= |xs|
    decreases |xs| - k
  {
    if k == |xs| then 0 else |xs[k]| + 1 + Size(xs, k + 1)
  }

  /** From p on the buffer holds the strings from index k on, and the empty string behind them. */
  ghost predicate HoldsStrings(a: seq<char>, p: int, xs: seq<string>, k: nat)
    requires k <= |xs|
    decreases |xs| - k
  {
    if k == |xs| then 0 <= p < |a| && a[p] == NUL
    else xs[k] != "" && HoldsText(a, p, xs[k]) && HoldsStrings(a, p + |xs[k]| + 1, xs, k + 1)
  }

  lemma {:induction false} StringsFit(a: seq<char>, p: int, xs: seq<string>, k: nat)
    requires k <= |xs| && HoldsStrings(a, p, xs, k)
    ensures 0 <= p && p + Size(xs, k) < |a|
    ensures a[p] == NUL <==> k == |xs|
    decreases |xs| - k
  {
    if k < |xs| {
      assert a[p] != NUL;
      StringsFit(a, p + |xs[k]| + 1, xs, k + 1);
    }
  }

  lemma {:induction false} HoldsMeansMultiSz(a: seq<char>, p: nat, xs: seq<string>, k: nat)
    requires k <= |xs| && HoldsStrings(a, p, xs, k)
    ensures IsMultiSz(a, p)
    decreases |xs| - k
  {
    if k == |xs| {
      assert a[p..][0] == NUL;
    } else {
      HeldText(a, p, xs[k]);
      HoldsMeansMultiSz(a, p + |xs[k]| + 1, xs, k + 1);
    }
  }

  lemma OneMore(xs: seq<string>, k: nat)
    requires k < |xs|
    ensures xs[k..] == [xs[k]] + xs[k + 1..]
  {
  }

  lemma FirstString(a: seq<char>, p: nat, x: string, q: nat)
    requires IsMultiSz(a, p) && x != "" && HoldsText(a, p, x) && q == p + |x| + 1
    ensures IsMultiSz(a, q) && Strings(a, p) == [x] + Strings(a, q)
  {
    HeldText(a, p, x);
    assert a[p] != NUL;
  }

  /** A buffer that holds strings is a multi-string of exactly those. */
  lemma {:induction false} HoldsMeansStrings(a: seq<char>, p: nat, xs: seq<string>, k: nat)
    requires k <= |xs| && HoldsStrings(a, p, xs, k)
    ensures IsMultiSz(a, p)
    ensures Strings(a, p) == xs[k..]
    decreases |xs| - k
  {
    HoldsMeansMultiSz(a, p, xs, k);
    if k < |xs| {
      var q := p + |xs[k]| + 1;
      HoldsMeansStrings(a, q, xs, k + 1);
      FirstString(a, p, xs[k], q);
      OneMore(xs, k);
    }
  }

  /** What a multi-string can be made of. */
  ghost predicate AreItems(xs: seq<string>) {
    forall k :: 0 <= k < |xs| ==> xs[k] != "" && NUL !in xs[k]
  }

  lemma {:induction false} HeldAreItems(a: seq<char>, p: int, xs: seq<string>, k: nat)
    requires k <= |xs| && HoldsStrings(a, p, xs, k)
    ensures forall j :: k <= j < |xs| ==> xs[j] != "" && NUL !in xs[j]
    decreases |xs| - k
  {
    if k < |xs| {
      HeldAreItems(a, p + |xs[k]| + 1, xs, k + 1);
      assert forall i :: 0 <= i < |xs[k]| ==> xs[k][i] == a[p + i];
    }
  }

  /** And every multi-string holds its strings. */
  lemma {:induction false} StringsAreHeld(a: seq<char>, p: nat)
    requires IsMultiSz(a, p)
    ensures HoldsStrings(a, p, Strings(a, p), 0)
    decreases |a| - p
  {
    if a[p] != NUL {
      var q, xs := p + StrLen(a, p) + 1, Strings(a, p);
      StringsAreHeld(a, q);
      TextIsHeld(a, p);
      assert xs[1..] == Strings(a, q);
      TailHeld(a, q, xs, 0);
    }
  }

  lemma {:induction false} TailHeld(a: seq<char>, p: int, xs: seq<string>, k: nat)
    requires k < |xs| && HoldsStrings(a, p, xs[1..], k)
    ensures HoldsStrings(a, p, xs, k + 1)
    decreases |xs| - k
  {
    if k + 1 < |xs| {
      TailHeld(a, p + |xs[k + 1]| + 1, xs, k + 1);
    }
  }

  /** From p on the buffer holds the strings from index k on; what follows them is open. */
  ghost predicate HoldsCells(a: seq<char>, p: int, xs: seq<string>, k: nat)
    requires k <= |xs|
    decreases |xs| - k
  {
    if k == |xs| then 0 <= p <= |a|
    else xs[k] != "" && HoldsText(a, p, xs[k]) && HoldsCells(a, p + |xs[k]| + 1, xs, k + 1)
  }

  /** The cells from p up to e, copied d cells on, are the same text there. */
  lemma TextCopied(a: seq<char>, c: seq<char>, p: nat, d: int, t: string)
    requires HoldsText(a, p, t) && 0 <= p + d && p + d + |t| < |c|
    requires forall i {:trigger a[i]} :: p <= i <= p + |t| ==> c[i + d] == a[i]
    ensures HoldsText(c, p + d, t)
  {
    forall i | p + d <= i < p + d + |t|
      ensures c[i] == t[i - p - d] && c[i] != NUL
    {
      assert a[i - d] == t[i - d - p];
    }
    assert c[p + |t| + d] == a[p + |t|];
  }

  lemma {:induction false} StringsCopied(a: seq<char>, c: seq<char>, p: nat, d: int, xs: seq<string>, k: nat)
    requires k <= |xs| && HoldsStrings(a, p, xs, k) && p + Size(xs, k) < |a|
    requires 0 <= p + d && p + d + Size(xs, k) <= |c|
    requires forall i {:trigger a[i]} :: p <= i < p + Size(xs, k) ==> c[i + d] == a[i]
    ensures HoldsCells(c, p + d, xs, k)
    decreases |xs| - k
  {
    if k < |xs| {
      TextCopied(a, c, p, d, xs[k]);
      StringsCopied(a, c, p + |xs[k]| + 1, d, xs, k + 1);
    }
  }

  /** A NUL behind the cells makes them a multi-string. */
  lemma {:induction false} Closed(a: seq<char>, p: int, xs: seq<string>, k: nat)
    requires k <= |xs| && HoldsCells(a, p, xs, k)
    requires p + Size(xs, k) < |a| && a[p + Size(xs, k)] == NUL
    ensures HoldsStrings(a, p, xs, k)
    decreases |xs| - k
  {
    if k < |xs| {
      Closed(a, p + |xs[k]| + 1, xs, k + 1);
    }
  }

  /** A pointer to a multi-string, or a null pointer, which counts as an empty one. */
  ghost predicate IsMultiSzPtr(a: array?<char>)
    reads a
  {
    a != null ==> IsMultiSz(a[..], 0)
  }

  ghost function StringsOf(a: array?<char>): seq<string>
    requires IsMultiSzPtr(a)
    reads a
  {
    if a == null then [] else Strings(a[..], 0)
  }

  lemma {:induction false} BehindOthers(a: seq<char>, p: int, xs: seq<string>, ys: seq<string>, k: nat)
    requires k <= |ys| && HoldsStrings(a, p, ys, k)
    ensures HoldsStrings(a, p, xs + ys, |xs| + k)
    decreases |ys| - k
  {
    if k < |ys| {
      BehindOthers(a, p + |ys[k]| + 1, xs, ys, k + 1);
    }
  }

  /** The multi-string moved d cells on is the same there. */
  lemma {:induction false} HoldsLater(b: seq<char>, a: seq<char>, p: nat, d: nat, xs: seq<string>, k: nat)
    requires k <= |xs| && HoldsStrings(b, p, xs, k) && |a| == d + |b|
    requires forall i {:trigger b[i]} :: p <= i < |b| ==> a[i + d] == b[i]
    ensures HoldsStrings(a, p + d, xs, k)
    decreases |xs| - k
  {
    if k < |xs| {
      TextCopied(b, a, p, d, xs[k]);
      HoldsLater(b, a, p + |xs[k]| + 1, d, xs, k + 1);
    } else {
      assert a[p + d] == b[p];
    }
  }

  lemma OneInFront(b: seq<char>, p: int, x: string, xs: seq<string>)
    requires x != "" && HoldsText(b, p, x) && HoldsStrings(b, p + |x| + 1, xs, 0)
    ensures HoldsStrings(b, p, [x] + xs, 0)
  {
    BehindOthers(b, p + |x| + 1, [x], xs, 0);
  }

  lemma TextStands(x: string, b: seq<char>)
    requires '\0' !in x
    ensures HoldsText(x + ['\0'] + b, 0, x)
  {
    var a := x + ['\0'] + b;
    assert forall i {:trigger a[i]} :: 0 <= i < |x| ==> a[i] == x[i] && x[i] in x;
  }

  lemma StandsLater(x: string, b: seq<char>, xs: seq<string>)
    requires HoldsStrings(b, 0, xs, 0)
    ensures HoldsStrings(x + ['\0'] + b, |x| + 1, xs, 0)
  {
    var front := x + ['\0'];
    Behind(front, b);
    HoldsLater(b, front + b, 0, |front|, xs, 0);
  }

  lemma Behind(front: seq<char>, b: seq<char>)
    ensures forall i {:trigger b[i]} :: 0 <= i < |b| ==> (front + b)[i + |front|] == b[i]
  {
  }

  /** A text with its NUL in front of a multi-string is one string more. */
  lemma TextInFront(x: string, b: seq<char>)
    requires x != "" && '\0' !in x && IsMultiSz(b, 0)
    ensures IsMultiSz(x + ['\0'] + b, 0) && Strings(x + ['\0'] + b, 0) == [x] + Strings(b, 0)
  {
    var a, xs := x + ['\0'] + b, Strings(b, 0);
    StringsAreHeld(b, 0);
    TextStands(x, b);
    StandsLater(x, b, xs);
    OneInFront(a, 0, x, xs);
    HoldsMeansStrings(a, 0, [x] + xs, 0);
    assert ([x] + xs)[0..] == [x] + xs;
  }

  /** And one more NUL ends it. */
  lemma NulInFront(b: seq<char>)
    ensures IsMultiSz(['\0'] + b, 0) && Strings(['\0'] + b, 0) == []
  {
    var none: seq<string> := [];
    assert HoldsStrings(['\0'] + b, 0, none, 0);
    HoldsMeansStrings(['\0'] + b, 0, none, 0);
  }

  /** The strings end at the first NUL that another one, or nothing, stands in front of. */
  lemma {:induction false} EndsThere(a: seq<char>, p: nat, xs: seq<string>, k: nat)
    requires k <= |xs| && HoldsStrings(a, p, xs, k)
    ensures
      var e := p + Size(xs, k);
      && e < |a| && a[e] == '\0' && (e > p ==> a[e - 1] == '\0')
      && forall i {:trigger a[i]} :: p <= i < e && a[i] == '\0' ==> i > p && a[i - 1] != '\0'
    decreases |xs| - k
  {
    if k < |xs| {
      var q := p + |xs[k]| + 1;
      EndsThere(a, q, xs, k + 1);
      assert a[q - 1] == '\0' && a[q - 2] != '\0';
    }
  }

  /** Walks from one string to the next. */
  method NextString(a: array<char>, p: nat, ghost xs: seq<string>, ghost k: nat) returns (q: nat)
    requires k < |xs| && HoldsStrings(a[..], p, xs, k)
    ensures HoldsStrings(a[..], q, xs, k + 1) && q + Size(xs, k + 1) == p + Size(xs, k)
    ensures q < a.Length && (a[q] == NUL <==> k + 1 == |xs|)
  {
    q := SkipText(a, p, xs[k]);
    q := q + 1;
    StringsFit(a[..], q, xs, k + 1);
  }

  /** __apxGetMultiSzLength: the offset of the final NUL and the number of strings. */
  method GetLength(a: array?<char>) returns (length: nat, count: nat)
    requires IsMultiSzPtr(a)
    ensures length == Size(StringsOf(a), 0) && count == |StringsOf(a)|
    ensures a != null ==> length < a.Length && HoldsStrings(a[..], 0, StringsOf(a), 0)
    ensures a != null ==>
      && a[..][length] == '\0' && (length > 0 ==> a[..][length - 1] == '\0')
      && forall i :: 0 <= i < length && a[..][i] == '\0' ==> i > 0 && a[..][i - 1] != '\0'
  {
    var p := 0;
    count := 0;
    if a == null {
      return 0, 0;
    }
    ghost var xs := StringsOf(a);
    StringsAreHeld(a[..], 0);
    StringsFit(a[..], 0, xs, 0);
    EndsThere(a[..], 0, xs, 0);
    while a[p] != NUL
      invariant count <= |xs| && 0 <= p < a.Length
      invariant HoldsStrings(a[..], p, xs, count) && (a[p] == NUL <==> count == |xs|)
      invariant p + Size(xs, count) == Size(xs, 0)
      decreases |xs| - count
    {
      p := NextString(a, p, xs, count);
      count := count + 1;
    }
    length := p;
  }

  // ----- Two multi-strings one behind the other -----

  /** The cells of xs and then the multi-string ys are the multi-string of both. */
  lemma {:induction false} Joined(a: seq<char>, p: int, xs: seq<string>, k: nat, ys: seq<string>)
    requires k <= |xs| && HoldsCells(a, p, xs, k) && HoldsStrings(a, p + Size(xs, k), ys, 0)
    ensures HoldsStrings(a, p, xs + ys, k)
    decreases |xs| - k
  {
    if k == |xs| {
      BehindOthers(a, p, xs, ys, 0);
    } else {
      Joined(a, p + |xs[k]| + 1, xs, k + 1, ys);
    }
  }

  /** AplMoveMemory from one object to another. */
  method MoveCells(buf: array<char>, at: nat, src: array<char>, n: nat)
    requires buf != src && at + n <= buf.Length && n <= src.Length
    modifies buf
    ensures forall i :: 0 <= i < n ==> buf[i + at] == src[i]
    ensures forall i {:trigger buf[i]} :: 0 <= i < buf.Length && !(at <= i < at + n) ==> buf[i] == old(buf[i])
  {
    for k := 0 to n
      invariant forall i :: 0 <= i < k ==> buf[i + at] == src[i]
      invariant forall i {:trigger buf[i]} :: 0 <= i < buf.Length && !(at <= i < at + k) ==> buf[i] == old(buf[i])
    {
      buf[at + k] := src[k];
    }
  }

  /** Copies the n cells of a multi-string, if there are any, to a place in another buffer. */
  method CopyStrings(buf: array<char>, at: nat, src: array?<char>, n: nat, ghost xs: seq<string>)
    requires IsMultiSzPtr(src) && xs == StringsOf(src) && n == Size(xs, 0)
    requires buf != src && at + n <= buf.Length
    modifies buf
    ensures HoldsCells(buf[..], at, xs, 0)
    ensures forall i {:trigger buf[i]} :: 0 <= i < buf.Length && !(at <= i < at + n) ==> buf[i] == old(buf[i])
  {
    if n != 0 {
      ghost var a := src[..];
      StringsAreHeld(a, 0);
      StringsFit(a, 0, xs, 0);
      MoveCells(buf, at, src, n);
      assert forall i {:trigger a[i]} :: 0 <= i < n ==> buf[..][i + at] == a[i] == src[i];
      StringsCopied(a, buf[..], 0, at, xs, 0);
    }
  }

  lemma {:induction false} CellsKept(a: seq<char>, c: seq<char>, p: nat, xs: seq<string>, k: nat)
    requires k <= |xs| && HoldsCells(a, p, xs, k) && p + Size(xs, k) <= |c|
    requires forall i {:trigger c[i]} :: p <= i < p + Size(xs, k) && i < |a| ==> c[i] == a[i]
    ensures HoldsCells(c, p, xs, k)
    decreases |xs| - k
  {
    if k < |xs| {
      CellsKept(a, c, p + |xs[k]| + 1, xs, k + 1);
    }
  }

  lemma LastClosed(c: seq<char>, p: nat, ys: seq<string>)
    requires HoldsCells(c, p, ys, 0) && |c| == p + Size(ys, 0) + 1 && c[|c| - 1] == NUL
    ensures HoldsStrings(c, p, ys, 0)
  {
    Closed(c, p, ys, 0);
  }

  lemma FirstKept(first: seq<char>, c: seq<char>, xs: seq<string>, n: nat)
    requires HoldsCells(first, 0, xs, 0) && n == Size(xs, 0) <= |c|
    requires forall i {:trigger c[i]} :: 0 <= i < n ==> i < |first| && c[i] == first[i]
    ensures HoldsCells(c, 0, xs, 0)
  {
    CellsKept(first, c, 0, xs, 0);
  }

  lemma JoinedStrings(c: seq<char>, xs: seq<string>, ys: seq<string>)
    requires HoldsCells(c, 0, xs, 0) && HoldsStrings(c, Size(xs, 0), ys, 0)
    ensures IsMultiSz(c, 0) && Strings(c, 0) == xs + ys
  {
    Joined(c, 0, xs, 0, ys);
    HoldsMeansStrings(c, 0, xs + ys, 0);
    assert (xs + ys)[0..] == xs + ys;
  }

  /** The first cells were there before the second were copied behind them. */
  lemma CombinedCells(first: seq<char>, c: seq<char>, xs: seq<string>, ys: seq<string>)
    requires HoldsCells(first, 0, xs, 0) && |first| == |c| == Size(xs, 0) + Size(ys, 0) + 1
    requires forall i {:trigger c[i]} :: 0 <= i < Size(xs, 0) ==> c[i] == first[i]
    requires HoldsCells(c, Size(xs, 0), ys, 0) && c[|c| - 1] == NUL
    ensures IsMultiSz(c, 0) && Strings(c, 0) == xs + ys
  {
    FirstKept(first, c, xs, Size(xs, 0));
    LastClosed(c, Size(xs, 0), ys);
    JoinedStrings(c, xs, ys);
  }

  /** The two moves into a zeroed buffer. */
  method CopyBoth(strA: array?<char>, la: nat, strB: array?<char>, lb: nat) returns (buf: array<char>)
    requires IsMultiSzPtr(strA) && IsMultiSzPtr(strB)
    requires la == Size(StringsOf(strA), 0) && lb == Size(StringsOf(strB), 0)
    ensures fresh(buf) && buf.Length == la + lb + 1
    ensures IsMultiSz(buf[..], 0) && Strings(buf[..], 0) == StringsOf(strA) + StringsOf(strB)
  {
    ghost var xs, ys := StringsOf(strA), StringsOf(strB);
    buf := new char[la + lb + 1](_ => NUL);
    CopyStrings(buf, 0, strA, la, xs);
    ghost var first := buf[..];
    CopyStrings(buf, la, strB, lb, ys);
    CombinedCells(first, buf[..], xs, ys);
  }

  /**
   * apxMultiSzCombine: a fresh multi-string with the strings of the first and
   * then those of the second, and its length in bytes; null for two null pointers.
   */
  method Combine(strA: array?<char>, strB: array?<char>) returns (rv: array?<char>, bytes: nat)
    requires IsMultiSzPtr(strA) && IsMultiSzPtr(strB)
    ensures rv == null <==> strA == null && strB == null
    ensures rv != null ==> fresh(rv) && IsMultiSz(rv[..], 0)
    ensures rv != null ==> StringsOf(rv) == StringsOf(strA) + StringsOf(strB)
    ensures rv != null ==> rv.Length == Size(StringsOf(strA), 0) + Size(StringsOf(strB), 0) + 1
    ensures rv != null ==> bytes == 2 * rv.Length
  {
    if strA == null && strB == null {
      return null, 0;
    }
    var la, _ := GetLength(strA);
    var lb, _ := GetLength(strB);
    rv := CopyBoth(strA, la, strB, lb);
    bytes := (la + lb + 1) * WCHAR_SIZE;
  }
}
