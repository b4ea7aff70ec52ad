/** In-place replacement of every occurrence of one string by another (replace.c). */
module Replace {
  import opened CStrings

  /** A read-only C string argument, which may be a null pointer. */
  datatype CPtr = Null | Str(text: CText)

  // ----- What replacing means -----

  predicate OccursAt(s: string, i: nat, m: string) {
    i + |m| <= |s| && s[i..i + |m|] == m
  }

  /** m occurs at i if it stands there, whatever is around it. */
  lemma OccursIs(s: string, i: nat, m: string)
    ensures OccursAt(s, i, m) <==> exists x, y :: |x| == i && s == x + m + y
  {
    if OccursAt(s, i, m) {
      assert s == s[..i] + m + s[i + |m|..];
    }
  }

  /** From i on, left to right, not overlapping: at a match take all of it, else one character. */
  function ReplaceFrom(s: string, i: nat, m: string, r: string): string
    requires m != "" && i <= |s|
    decreases |s| - i
  {
    if OccursAt(s, i, m) then r + ReplaceFrom(s, i + |m|, m, r)
    else if i == |s| then ""
    else [s[i]] + ReplaceFrom(s, i + 1, m, r)
  }

  function ReplaceAll(s: string, m: string, r: string): string
    requires m != ""
  {
    ReplaceFrom(s, 0, m, r)
  }

  /** The number of matches taken from i on. */
  function Count(s: string, i: nat, m: string): nat
    requires m != "" && i <= |s|
    decreases |s| - i
  {
    if OccursAt(s, i, m) then 1 + Count(s, i + |m|, m)
    else if i == |s| then 0
    else Count(s, i + 1, m)
  }

  /** k is the first place at or behind i where m occurs. */
  ghost predicate NextHit(s: string, i: nat, m: string, k: nat) {
    i <= k && OccursAt(s, k, m) && forall j :: i <= j < k ==> !OccursAt(s, j, m)
  }

  /** Replacing goes from one hit to the next. */
  lemma {:induction false} AtTheNextHit(s: string, i: nat, m: string, r: string, k: nat)
    requires m != "" && i <= |s| && NextHit(s, i, m, k)
    ensures ReplaceFrom(s, i, m, r) == s[i..k] + r + ReplaceFrom(s, k + |m|, m, r)
    ensures Count(s, i, m) == 1 + Count(s, k + |m|, m)
    decreases k - i
  {
    if i < k {
      AtTheNextHit(s, i + 1, m, r, k);
      assert s[i..k] == [s[i]] + s[i + 1..k];
    } else {
      assert s[i..k] + r == r;
    }
  }

  lemma {:induction false} WithoutHit(s: string, i: nat, m: string, r: string)
    requires m != "" && i <= |s| && forall j :: i <= j <= |s| ==> !OccursAt(s, j, m)
    ensures ReplaceFrom(s, i, m, r) == s[i..] && Count(s, i, m) == 0
    decreases |s| - i
  {
    if i < |s| {
      WithoutHit(s, i + 1, m, r);
      assert s[i..] == [s[i]] + s[i + 1..];
    }
  }

  lemma Distributes(d: int, c: int)
    ensures d * (1 + c) == d + d * c
  {
  }

  lemma {:induction false} LengthBy(s: string, i: nat, m: string, r: string, d: int)
    requires m != "" && i <= |s| && d == |r| - |m|
    ensures |ReplaceFrom(s, i, m, r)| == |s| - i + d * Count(s, i, m)
    decreases |s| - i
  {
    if OccursAt(s, i, m) {
      LengthBy(s, i + |m|, m, r, d);
      Distributes(d, Count(s, i + |m|, m));
    } else if i < |s| {
      LengthBy(s, i + 1, m, r, d);
    }
  }

  lemma LengthAfter(s: string, i: nat, m: string, r: string)
    requires m != "" && i <= |s|
    ensures |ReplaceFrom(s, i, m, r)| == |s| - i + (|r| - |m|) * Count(s, i, m)
  {
    LengthBy(s, i, m, r, |r| - |m|);
  }

  /** Replacing a string by itself changes nothing. */
  lemma {:induction false} ReplacedByItself(s: string, i: nat, m: string)
    requires m != "" && i <= |s|
    ensures ReplaceFrom(s, i, m, m) == s[i..]
    decreases |s| - i
  {
    if OccursAt(s, i, m) {
      ReplacedByItself(s, i + |m|, m);
      assert s[i..] == s[i..i + |m|] + s[i + |m|..];
    } else if i < |s| {
      ReplacedByItself(s, i + 1, m);
      assert s[i..] == [s[i]] + s[i + 1..];
    }
  }

  lemma {:induction false} GrowsOrShrinks(s: string, i: nat, m: string, r: string)
    requires m != "" && i <= |s|
    ensures |r| >= |m| ==> |ReplaceFrom(s, i, m, r)| >= |s| - i
    ensures |r| <= |m| ==> |ReplaceFrom(s, i, m, r)| <= |s| - i
    decreases |s| - i
  {
    if OccursAt(s, i, m) {
      GrowsOrShrinks(s, i + |m|, m, r);
    } else if i < |s| {
      GrowsOrShrinks(s, i + 1, m, r);
    }
  }

  lemma {:induction false} NoNewNul(s: CText, i: nat, m: string, r: CText)
    requires m != "" && i <= |s|
    ensures NUL !in ReplaceFrom(s, i, m, r)
    decreases |s| - i
  {
    if OccursAt(s, i, m) {
      NoNewNul(s, i + |m|, m, r);
    } else if i < |s| {
      assert s[i] in s;
      NoNewNul(s, i + 1, m, r);
    }
  }

  /** strstr: where m first occurs in s, or -1. */
  function StrStr(s: string, i: nat, m: string): (k: int)
    requires i <= |s|
    ensures k >= 0 ==> NextHit(s, i, m, k)
    ensures k < 0 ==> forall j :: i <= j <= |s| ==> !OccursAt(s, j, m)
    decreases |s| - i
  {
    if OccursAt(s, i, m) then i else if i == |s| then -1 else StrStr(s, i + 1, m)
  }

  // ----- The code -----

  /** strcpy(new, old). */
  method StrCpy(buf: array<char>, s: CText)
    requires |s| < buf.Length
    modifies buf
    ensures HoldsText(buf[..], 0, s)
    ensures forall i :: |s| < i < buf.Length ==> buf[i] == old(buf[i])
  {
    for i := 0 to |s|
      invariant buf[..i] == s[..i]
      invariant forall j :: i <= j < buf.Length ==> buf[j] == old(buf[j])
    {
      buf[i] := s[i];
    }
    buf[|s|] := NUL;
  }

  /** strncpy(tmp, rpl, strlen(rpl)): the characters without the terminator. */
  method StrNCpy(buf: array<char>, tmp: nat, r: string)
    requires tmp + |r| <= buf.Length
    modifies buf
    ensures buf[tmp..tmp + |r|] == r
    ensures forall i :: 0 <= i < buf.Length && !(tmp <= i < tmp + |r|) ==> buf[i] == old(buf[i])
  {
    for i := 0 to |r|
      invariant buf[tmp..tmp + i] == r[..i]
      invariant forall j :: 0 <= j < buf.Length && !(tmp <= j < tmp + i) ==> buf[j] == old(buf[j])
    {
      buf[tmp + i] := r[i];
    }
  }

  /**
   * The gap is made: everything from lo up to z, the terminator, is shift cells
   * on from where it was in b. Nothing before tmp and nothing behind has changed.
   */
  ghost predicate Gapped(now: seq<char>, b: seq<char>, tmp: nat, lo: nat, z: nat, shift: int)
    requires tmp <= lo <= z < |b| && tmp <= lo + shift && z + shift < |b|
  {
    && |now| == |b|
    && (forall i {:trigger now[i]} :: 0 <= i < tmp ==> now[i] == b[i])
    && (forall i {:trigger now[i]} :: lo + shift <= i <= z + shift ==> now[i] == b[i - shift])
    && (forall i {:trigger now[i]} :: lo <= i < |b| && z + shift < i ==> now[i] == b[i])
  }

  /** The cells behind x, up to z, have been moved right by shift, the cells up to x are as in b. */
  ghost predicate MovedRight(now: seq<char>, b: seq<char>, x: int, z: int, shift: int)
    requires 0 < shift && 0 <= x <= z && z + shift < |b|
  {
    && |now| == |b|
    && (forall i {:trigger now[i]} :: 0 <= i < |b| && !(x + shift < i <= z + shift) ==> now[i] == b[i])
    && (forall i {:trigger now[i]} :: x + shift < i <= z + shift ==> now[i] == b[i - shift])
  }

  /** One step of the loop: the cell at x goes to x + shift. */
  method MoveCellRight(buf: array<char>, x: nat, shift: int, ghost b: seq<char>, ghost z: int)
    requires 0 < shift && 0 < x <= z && z + shift < |b|
    requires MovedRight(buf[..], b, x, z, shift)
    modifies buf
    ensures MovedRight(buf[..], b, x - 1, z, shift)
  {
    buf[x + shift] := buf[x];
  }

  /** Moves everything but the first character of the rest shift cells up, last cell first. */
  method ShiftRight(buf: array<char>, tmp: nat, mlen: nat, shift: nat, ghost rest: CText)
    requires HoldsText(buf[..], tmp, rest) && 0 < mlen <= |rest| && shift > 0
    requires tmp + |rest| + shift < buf.Length
    modifies buf
    ensures Gapped(buf[..], old(buf[..]), tmp, tmp + mlen, tmp + |rest|, shift)
  {
    ghost var b, z := buf[..], tmp + |rest|;
    TextIs(buf[..], tmp, rest);
    var x := StrLen(buf[..], tmp) + shift;
    while x > shift
      invariant shift <= x <= |rest| + shift
      invariant MovedRight(buf[..], b, tmp + x - shift, z, shift)
    {
      MoveCellRight(buf, tmp + x - shift, shift, b, z);
      x := x - 1;
    }
  }

  /** The cells from lo on up to x have been moved by shift, the other cells are as in b. */
  ghost predicate MovedLeft(now: seq<char>, b: seq<char>, lo: int, x: int, shift: int)
    requires shift < 0 <= lo + shift && lo <= x <= |b|
  {
    && |now| == |b|
    && (forall i {:trigger now[i]} :: 0 <= i < |b| && !(lo + shift <= i < x + shift) ==> now[i] == b[i])
    && (forall i {:trigger now[i]} :: lo + shift <= i < x + shift ==> now[i] == b[i - shift])
  }

  /** One step of the loop: the cell at x goes to x + shift. */
  method MoveCell(buf: array<char>, x: nat, shift: int, ghost b: seq<char>, ghost lo: int)
    requires shift < 0 <= lo + shift && lo <= x < |b|
    requires MovedLeft(buf[..], b, lo, x, shift)
    modifies buf
    ensures MovedLeft(buf[..], b, lo, x + 1, shift)
  {
    buf[x + shift] := buf[x];
  }

  ghost predicate EndsAt(b: seq<char>, tmp: nat, z: nat) {
    z < |b| && b[z] == NUL && forall i :: tmp <= i < z ==> b[i] != NUL
  }

  lemma EndOfRest(b: seq<char>, tmp: nat, rest: CText)
    requires tmp + |rest| < |b| && b[tmp..tmp + |rest|] == rest && b[tmp + |rest|] == NUL
    ensures EndsAt(b, tmp, tmp + |rest|)
  {
    assert forall i :: tmp <= i < tmp + |rest| ==> b[i] == rest[i - tmp];
  }

  /** While the terminator at z is not moved the string is as long as before; then it is shorter. */
  lemma LengthWhileMoving(now: seq<char>, b: seq<char>, tmp: nat, lo: nat, x: nat, z: nat, shift: int)
    requires shift < 0 && tmp <= lo + shift && lo <= x <= z + 1 <= |b| && lo <= z
    requires EndsAt(b, tmp, z) && MovedLeft(now, b, lo, x, shift)
    ensures IsCString(now, tmp)
    ensures StrLen(now, tmp) == (if x <= z then z else z + shift) - tmp
  {
    StrLenIs(now, tmp, (if x <= z then z else z + shift) - tmp);
  }

  /**
   * Moves everything behind the match down by -shift cells, first cell first.
   * The loop's bound is a strlen taken again on every round: it falls by -shift
   * when the terminator is moved, which is what ends the loop.
   */
  method ShiftLeft(buf: array<char>, tmp: nat, mlen: nat, shift: int, ghost rest: CText)
    requires HoldsText(buf[..], tmp, rest) && shift < 0 && 0 <= mlen + shift && mlen <= |rest|
    modifies buf
    ensures Gapped(buf[..], old(buf[..]), tmp, tmp + mlen, tmp + |rest|, shift)
  {
    ghost var b, z, lo := buf[..], tmp + |rest|, tmp + mlen;
    EndOfRest(b, tmp, rest);
    var x := mlen;
    LengthWhileMoving(b, b, tmp, lo, lo, z, shift);
    while x < StrLen(buf[..], tmp) - shift
      invariant mlen <= x <= |rest| + 1
      invariant MovedLeft(buf[..], b, lo, tmp + x, shift)
      invariant IsCString(buf[..], tmp)
      invariant StrLen(buf[..], tmp) == (if tmp + x <= z then z else z + shift) - tmp
      decreases |rest| + 1 - x
    {
      ghost var q := tmp + x;
      MoveCell(buf, tmp + x, shift, b, lo);
      x := x + 1;
      LengthWhileMoving(buf[..], b, tmp, lo, q + 1, z, shift);
    }
  }

  /** Makes or closes the gap between a match of mlen characters and its replacement. */
  method MakeGap(buf: array<char>, tmp: nat, mlen: nat, shift: int, ghost rest: CText)
    requires HoldsText(buf[..], tmp, rest) && 0 < mlen <= |rest| && 0 <= mlen + shift
    requires tmp + |rest| + shift < buf.Length
    modifies buf
    ensures Gapped(buf[..], old(buf[..]), tmp, tmp + mlen, tmp + |rest|, shift)
  {
    if shift > 0 {
      ShiftRight(buf, tmp, mlen, shift, rest);
    } else if shift < 0 {
      ShiftLeft(buf, tmp, mlen, shift, rest);
    }
  }

  /** The gap has been filled, and the rest behind it ends where it should. */
  lemma FilledGap(buf: array<char>, c: seq<char>, b: seq<char>, tmp: nat, mlen: nat, r: string, rest: CText)
    requires mlen <= |rest| && HoldsText(b, tmp, rest) && tmp + |rest| + |r| - mlen < |b|
    requires Gapped(c, b, tmp, tmp + mlen, tmp + |rest|, |r| - mlen) && buf.Length == |c|
    requires forall i {:trigger buf[i]} :: 0 <= i < buf.Length && !(tmp <= i < tmp + |r|) ==> buf[i] == c[i]
    ensures buf[..tmp] == b[..tmp] && HoldsText(buf[..], tmp + |r|, rest[mlen..])
    ensures forall i :: tmp + |rest| <= i < |b| && tmp + |rest| + |r| - mlen < i ==> buf[i] == b[i]
  {
    var p, q := tmp + |r|, tmp + |rest| + |r| - mlen;
    assert forall i {:trigger buf[i]} :: p <= i <= q ==> buf[i] == b[i - (|r| - mlen)];
  }

  /** Replaces the match at tmp, the start of rest; the replacement is written without a terminator. */
  method Substitute(buf: array<char>, tmp: nat, mlen: nat, r: CText, shift: int, ghost rest: CText)
    requires HoldsText(buf[..], tmp, rest) && 0 < mlen <= |rest| && shift == |r| - mlen
    requires tmp + |rest| + shift < buf.Length
    modifies buf
    ensures buf[..tmp] == old(buf[..tmp])
    ensures buf[tmp..tmp + |r|] == r && HoldsText(buf[..], tmp + |r|, rest[mlen..])
    ensures forall i :: tmp + |rest| <= i < buf.Length && tmp + |rest| + shift < i ==> buf[i] == old(buf[i])
  {
    ghost var b := buf[..];
    assert buf[..tmp] == b[..tmp];
    MakeGap(buf, tmp, mlen, shift, rest);
    ghost var c := buf[..];
    StrNCpy(buf, tmp, r);
    assert forall i {:trigger buf[i]} :: 0 <= i < buf.Length && !(tmp <= i < tmp + |r|) ==> buf[i] == c[i];
    FilledGap(buf, c, b, tmp, mlen, r, rest);
    assert buf[..tmp] == b[..tmp] == old(buf[..tmp]);
  }

  /** The replacement counts as "" when its pointer is null. */
  function TextOf(p: CPtr): CText {
    match p
    case Null => ""
    case Str(s) => s
  }

  /** The text the caller asked for; a null or empty match leaves the text alone. */
  function Wanted(s: CText, mch: CPtr, rpl: CPtr): CText {
    if TextOf(mch) == "" then s
    else
      NoNewNul(s, 0, TextOf(mch), TextOf(rpl));
      ReplaceAll(s, TextOf(mch), TextOf(rpl))
  }

  /** A null or empty match changes nothing, a null replacement is an empty one. */
  lemma WantedMeans(s: CText, m: CText, r: CText)
    ensures Wanted(s, Null, Str(r)) == Wanted(s, Null, Null) == s
    ensures Wanted(s, Str(""), Str(r)) == Wanted(s, Str(""), Null) == s
    ensures m != "" ==> Wanted(s, Str(m), Str(r)) == ReplaceFrom(s, 0, m, r)
    ensures m != "" ==> Wanted(s, Str(m), Null) == ReplaceFrom(s, 0, m, "")
  {
  }

  /** Hits found one after the other, as in the source's counting loop. */
  method CountHits(s: CText, m: CText) returns (count: nat)
    requires m != ""
    ensures count == Count(s, 0, m)
  {
    var tmp := 0;
    count := 0;
    var k := StrStr(s, tmp, m);
    while k >= 0
      invariant tmp <= |s| && k == StrStr(s, tmp, m)
      invariant count + Count(s, tmp, m) == Count(s, 0, m)
      decreases |s| - tmp
    {
      AtTheNextHit(s, tmp, m, "", k);
      count := count + 1;
      tmp := k + |m|;
      k := StrStr(s, tmp, m);
    }
    WithoutHit(s, tmp, m, "");
  }

  /** strcpy and the size check in front of it, for a text that has no match. */
  method CopyIfItFits(buf: array<char>, len: nat, s: CText) returns (rc: int)
    requires len <= buf.Length
    modifies buf
    ensures |s| < len ==> rc == 0 && HoldsText(buf[..], 0, s)
    ensures |s| < len ==> forall i :: |s| < i < buf.Length ==> buf[i] == old(buf[i])
    ensures |s| >= len ==> rc == |s| + 1 && buf[..] == old(buf[..])
  {
    if len <= |s| {
      return |s| + 1;
    }
    StrCpy(buf, s);
    rc := 0;
  }

  /** The hits in the buffer's rest are the hits in the text it was copied from. */
  lemma HitInTheRest(s: string, t: nat, m: string, k: int)
    requires t <= |s| && m != "" && k == StrStr(s[t..], 0, m)
    ensures k >= 0 ==> NextHit(s, t, m, t + k)
    ensures k < 0 ==> forall j :: t <= j <= |s| ==> !OccursAt(s, j, m)
  {
    forall j | t <= j <= |s|
      ensures OccursAt(s, j, m) <==> OccursAt(s[t..], j - t, m)
    {
      SameHit(s, t, m, j);
    }
  }

  lemma SameHit(s: string, t: nat, m: string, j: nat)
    requires t <= j <= |s|
    ensures OccursAt(s, j, m) <==> OccursAt(s[t..], j - t, m)
  {
    if j + |m| <= |s| {
      assert s[t..][j - t..j - t + |m|] == s[j..j + |m|];
    }
  }

  /** The buffer holds the finished text, then the rest and its terminator. */
  ghost predicate DoneAndRest(buf: array<char>, done: string, rest: string)
    reads buf
  {
    |done| <= buf.Length && buf[..|done|] == done && HoldsText(buf[..], |done|, rest)
  }

  lemma SkipToHit(buf: array<char>, done: string, rest: string, k: nat)
    requires DoneAndRest(buf, done, rest) && k <= |rest|
    ensures DoneAndRest(buf, done + rest[..k], rest[k..])
  {
    var p := |done|;
    assert forall i {:trigger buf[i]} :: p <= i < p + |rest| ==> buf[i] == buf[..][i] == rest[i - p];
    assert forall i {:trigger buf[i]} :: 0 <= i < p ==> buf[i] == buf[..p][i] == done[i];
    assert buf[..p + k] == done + rest[..k];
  }

  /** strstr(tmp, mch) on the buffer is the next hit in the text. */
  method FindInRest(buf: array<char>, tmp: nat, m: CText, ghost done: string, ghost s: CText, ghost t: nat) returns (k: int)
    requires t <= |s| && m != "" && DoneAndRest(buf, done, s[t..]) && tmp == |done|
    ensures k >= 0 ==> NextHit(s, t, m, t + k)
    ensures k < 0 ==> forall j :: t <= j <= |s| ==> !OccursAt(s, j, m)
  {
    TextIs(buf[..], tmp, s[t..]);
    k := StrStr(Text(buf[..], tmp), 0, m);
    HitInTheRest(s, t, m, k);
  }

  /** done is the finished part of the result, the text from t on is still to be replaced. */
  ghost predicate Progress(done: string, s: CText, t: nat, m: CText, r: CText) {
    && t <= |s| && m != ""
    && done + ReplaceFrom(s, t, m, r) == ReplaceAll(s, m, r)
    && (|r| <= |m| ==> |done| <= t)
  }

  /** Room for what the buffer holds while a replacement is made. */
  lemma RoomEnough(done: string, s: CText, t: nat, m: CText, r: CText, k: nat)
    requires Progress(done, s, t, m, r) && NextHit(s, t, m, k)
    ensures |done| + (|s| - t) + |r| - |m| <= if |r| > |m| then |ReplaceAll(s, m, r)| else |s|
    ensures |done| + (|s| - t) <= if |r| > |m| then |ReplaceAll(s, m, r)| else |s|
  {
    AtTheNextHit(s, t, m, r, k);
    GrowsOrShrinks(s, k + |m|, m, r);
  }

  lemma Regroup(done: string, x: string, r: string, after: string)
    ensures done + (x + r + after) == done + x + r + after
  {
  }

  lemma ProgressAtHit(done: string, s: CText, t: nat, m: CText, r: CText, k: nat, t': nat) returns (done': string)
    requires Progress(done, s, t, m, r) && NextHit(s, t, m, t + k) && t' == t + k + |m|
    ensures Progress(done', s, t', m, r)
    ensures done' == done + s[t..][..k] + r
  {
    var x, after := s[t..t + k], ReplaceFrom(s, t', m, r);
    assert s[t..][..k] == x;
    done' := done + x + r;
    AtTheNextHit(s, t, m, r, t + k);
    Regroup(done, x, r, after);
    assert done' + after == done + ReplaceFrom(s, t, m, r);
  }

  /** Replaces the hit k characters into the rest. */
  method SubstituteHit(buf: array<char>, tmp: nat, mlen: nat, r: CText, ghost done: string, ghost rest: CText, ghost k: nat)
      returns (ghost done': string, ghost rest': CText)
    requires DoneAndRest(buf, done, rest) && tmp == |done| + k
    requires 0 < mlen && k + mlen <= |rest|
    requires |done| + |rest| + |r| - mlen < buf.Length
    modifies buf
    ensures done' == done + rest[..k] + r && rest' == rest[k + mlen..]
    ensures DoneAndRest(buf, done', rest')
    ensures forall i :: |done| + |rest| <= i < buf.Length && |done'| + |rest'| < i ==> buf[i] == old(buf[i])
  {
    SkipToHit(buf, done, rest, k);
    done', rest' := done + rest[..k] + r, rest[k + mlen..];
    Substitute(buf, tmp, mlen, r, |r| - mlen, rest[k..]);
    assert rest[k..][mlen..] == rest';
    LongerDone(buf, done + rest[..k], r, rest');
  }

  lemma LongerDone(buf: array<char>, done: string, r: string, rest: string)
    requires |done| + |r| <= buf.Length && buf[..|done|] == done && buf[|done|..|done| + |r|] == r
    requires HoldsText(buf[..], |done| + |r|, rest)
    ensures DoneAndRest(buf, done + r, rest)
  {
    assert buf[..|done + r|] == buf[..|done|] + buf[|done|..|done| + |r|];
  }

  /** The same hit, seen from the text: rest is the text from t on. */
  method ReplaceHit(buf: array<char>, tmp: nat, m: CText, r: CText, ghost done: string, ghost s: CText, ghost t: nat,
                    ghost k: nat)
      returns (ghost done': string, ghost t': nat)
    requires Progress(done, s, t, m, r) && NextHit(s, t, m, t + k)
    requires DoneAndRest(buf, done, s[t..]) && tmp == |done| + k
    requires |s| < buf.Length && |ReplaceAll(s, m, r)| < buf.Length
    modifies buf
    ensures Progress(done', s, t', m, r) && t < t'
    ensures DoneAndRest(buf, done', s[t'..]) && |done'| == tmp + |r|
    ensures forall i :: |s| <= i < buf.Length && |ReplaceAll(s, m, r)| < i ==> buf[i] == old(buf[i])
  {
    RoomEnough(done, s, t, m, r, t + k);
    GrowsOrShrinks(s, 0, m, r);
    t' := t + k + |m|;
    done' := ProgressAtHit(done, s, t, m, r, k, t');
    ghost var d, rest := SubstituteHit(buf, tmp, |m|, r, done, s[t..], k);
    assert d == done' && rest == s[t'..];
  }

  /** Hit after hit, until the rest of the buffer has none. */
  method ReplaceInBuffer(buf: array<char>, m: CText, r: CText, ghost s: CText)
    requires m != "" && HoldsText(buf[..], 0, s)
    requires |ReplaceAll(s, m, r)| < buf.Length
    modifies buf
    ensures HoldsText(buf[..], 0, ReplaceAll(s, m, r))
    ensures forall i :: |s| <= i < buf.Length && |ReplaceAll(s, m, r)| < i ==> buf[i] == old(buf[i])
  {
    var tmp := 0;
    ghost var t, done := 0, "";
    var k := FindInRest(buf, tmp, m, "", s, 0);
    while k >= 0
      invariant Progress(done, s, t, m, r) && tmp == |done|
      invariant DoneAndRest(buf, done, s[t..])
      invariant k >= 0 ==> NextHit(s, t, m, t + k)
      invariant k < 0 ==> forall j :: t <= j <= |s| ==> !OccursAt(s, j, m)
      invariant forall i :: |s| <= i < buf.Length && |ReplaceAll(s, m, r)| < i ==> buf[i] == old(buf[i])
      decreases |s| - t
    {
      done, t := ReplaceHit(buf, tmp + k, m, r, done, s, t, k);
      tmp := tmp + k + |r|;
      k := FindInRest(buf, tmp, m, done, s, t);
    }
    WithoutHit(s, t, m, r);
    NoNewNul(s, 0, m, r);
    Finished(buf, done, s[t..]);
  }

  lemma Finished(buf: array<char>, done: string, rest: string)
    requires DoneAndRest(buf, done, rest) && NUL !in done + rest
    ensures HoldsText(buf[..], 0, done + rest)
  {
    var p, n := |done|, |done| + |rest|;
    assert buf[0..n] == buf[..p] + buf[p..n];
  }

  /** Poison that shows a write: no cell from len on holds a NUL. */
  predicate NoNulFrom(b: seq<char>, len: nat) {
    forall i :: len <= i < |b| ==> b[i] != NUL
  }

  /**
   * replace(). buf is the memory from the buffer on, the buffer is its first len
   * cells. A buffer and a text that are there give 0 and the wanted text, or the
   * size that would have been needed and an untouched memory. The source checks
   * the wanted text's size only, but copies the old text first: the writes stay
   * in the buffer if and only if there are none, or the old text fits as well.
   */
  method Replace(buf: array?<char>, len: int, s: CPtr, mch: CPtr, rpl: CPtr) returns (rc: int)
    requires buf != null ==> len <= buf.Length
    requires buf != null && s.Str? && |Wanted(s.text, mch, rpl)| < len ==> |s.text| < buf.Length
    modifies if buf != null then {buf} else {}
    ensures buf == null ==> rc == -1
    ensures buf != null && len < 0 ==> rc == -2
    ensures buf != null && len >= 0 && s.Null? ==> rc == -3
    ensures rc < 0 ==> buf == null || buf[..] == old(buf[..])
    ensures buf != null && len >= 0 && s.Str? ==>
      var w := Wanted(s.text, mch, rpl);
      if |w| < len then
        && rc == 0 && HoldsText(buf[..], 0, w)
        && (forall i :: |s.text| < i < buf.Length && |w| < i ==> buf[i] == old(buf[i]))
      else rc == |w| + 1 && buf[..] == old(buf[..])
    ensures buf != null && len >= 0 && s.Str? && NoNulFrom(old(buf[..]), len) ==>
      ((forall i :: len <= i < buf.Length ==> buf[i] == old(buf[i]))
       <==> |Wanted(s.text, mch, rpl)| >= len || |s.text| < len)
  {
    if buf == null {
      return -1;
    }
    if len < 0 {
      return -2;
    }
    if s.Null? {
      return -3;
    }
    if mch.Null? || |mch.text| == 0 {
      rc := CopyIfItFits(buf, len, s.text);
      return;
    }
    var r := if rpl.Null? then "" else rpl.text;
    var m := mch.text;
    var olen, mlen, rlen := |s.text|, |m|, |r|;
    var count := CountHits(s.text, m);
    LengthAfter(s.text, 0, m, r);
    if count == 0 {
      NoHitsAtAll(s.text, 0, m, r);
      rc := CopyIfItFits(buf, len, s.text);
      return;
    }
    var shift := rlen - mlen;
    var nlen := olen + shift * count;
    if nlen >= len {
      return nlen + 1;
    }
    StrCpy(buf, s.text);
    ReplaceInBuffer(buf, m, r, s.text);
    rc := 0;
  }

  lemma {:induction false} NoHitsAtAll(s: string, i: nat, m: string, r: string)
    requires m != "" && i <= |s| && Count(s, i, m) == 0
    ensures ReplaceFrom(s, i, m, r) == s[i..]
    decreases |s| - i
  {
    if i < |s| {
      NoHitsAtAll(s, i + 1, m, r);
      assert s[i..] == [s[i]] + s[i + 1..];
    }
  }

  /** A text of two characters that goes through a buffer of one: the memory behind it is overwritten. */
  method Overrun() returns (rc: int, buf: array<char>)
    ensures fresh(buf) && buf.Length == 3 && rc == 0 && buf[1..] != "##"
  {
    buf := new char[3](_ => '#');
    rc := Replace(buf, 1, Str("aa"), Str("aa"), Str(""));
    AtTheNextHit("aa", 0, "aa", "", 0);
    assert Wanted("aa", Str("aa"), Str("")) == "";
  }

  /**
   * The size check compares the wanted text's length. No old text is longer, so
   * that every write stays in the buffer whatever its length, exactly when the
   * replacement is not shorter than the match.
   */
  lemma SizeCheckSufficesIff(mch: CText, rpl: CText)
    requires mch != ""
    ensures (forall s: CText :: |s| <= |Wanted(s, Str(mch), Str(rpl))|) <==> |rpl| >= |mch|
  {
    if |rpl| < |mch| {
      AtTheNextHit(mch, 0, mch, rpl, 0);
      assert Wanted(mch, Str(mch), Str(rpl)) == rpl;
    } else {
      forall s: CText
        ensures |s| <= |Wanted(s, Str(mch), Str(rpl))|
      {
        GrowsOrShrinks(s, 0, mch, rpl);
      }
    }
  }
}
