/** C strings: a run of characters ended by the first NUL, inside a buffer. */
module CStrings {

  const NUL: char := '\0'

  /** The text of a C string: everything before its terminator. */
  type CText = s: string | NUL !in s

  /** A pointer p into buffer a that addresses a terminated string. */
  predicate IsCString(a: seq<char>, p: int) {
    0 <= p < |a| && NUL in a[p..]
  }

  /** strlen: how far the first NUL is from p. */
  function StrLen(a: seq<char>, p: nat): (n: nat)
    requires IsCString(a, p)
    ensures p + n < |a| && a[p + n] == NUL
    ensures NUL !in a[p..p + n]
    decreases |a| - p
  {
    if a[p] == NUL then 0
    else
      assert a[p..] == [a[p]] + a[p + 1..];
      var n := 1 + StrLen(a, p + 1);
      assert a[p..p + n] == [a[p]] + a[p + 1..p + n];
      n
  }

  /** The text a pointer addresses. */
  function Text(a: seq<char>, p: nat): CText
    requires IsCString(a, p)
  {
    a[p..p + StrLen(a, p)]
  }

  /** The first NUL is the only place a string can end. */
  lemma StrLenIs(a: seq<char>, p: nat, n: nat)
    requires p + n < |a| && a[p + n] == NUL
    requires forall i :: p <= i < p + n ==> a[i] != NUL
    ensures IsCString(a, p) && StrLen(a, p) == n && Text(a, p) == a[p..p + n]
  {
    assert a[p..][n] == NUL;
    var m := StrLen(a, p);
    assert forall i :: p <= i < p + m ==> a[i] == a[p..p + m][i - p];
  }

  lemma NoNulBefore(a: seq<char>, p: nat)
    requires IsCString(a, p)
    ensures forall i :: p <= i < p + StrLen(a, p) ==> a[i] != NUL
  {
    assert forall i :: p <= i < p + StrLen(a, p) ==> a[i] == a[p..p + StrLen(a, p)][i - p];
  }

  /** A buffer that holds t and a NUL at p addresses exactly t there. */
  lemma TextIs(a: seq<char>, p: nat, t: CText)
    requires p + |t| < |a| && a[p..p + |t|] == t && a[p + |t|] == NUL
    ensures IsCString(a, p) && StrLen(a, p) == |t| && Text(a, p) == t
  {
    assert forall i :: p <= i < p + |t| ==> a[i] == t[i - p];
    StrLenIs(a, p, |t|);
  }

  /** The buffer holds the C string t at p. */
  ghost predicate HoldsText(a: seq<char>, p: int, t: string) {
    && 0 <= p && p + |t| < |a|
    && (forall i {:trigger a[i]} :: p <= i < p + |t| ==> a[i] == t[i - p] && a[i] != NUL)
    && a[p + |t|] == NUL
  }

  lemma HeldText(a: seq<char>, p: nat, t: string)
    requires HoldsText(a, p, t)
    ensures IsCString(a, p) && StrLen(a, p) == |t| && Text(a, p) == t
  {
    StrLenIs(a, p, |t|);
  }

  lemma TextIsHeld(a: seq<char>, p: nat)
    requires IsCString(a, p)
    ensures HoldsText(a, p, Text(a, p))
  {
    NoNulBefore(a, p);
  }

  /** Walks a pointer to the end of the string it addresses. */
  method SkipText(a: array<char>, p: nat, ghost t: string) returns (q: nat)
    requires HoldsText(a[..], p, t)
    ensures q == p + |t|
  {
    assert forall i {:trigger a[i]} :: p <= i < p + |t| ==> a[i] == a[..][i];
    q := p;
    while a[q] != NUL
      invariant p <= q <= p + |t|
      decreases p + |t| - q
    {
      q := q + 1;
    }
  }

  /** The buffer holds w and is NUL behind it. */
  ghost predicate Filled(buf: array<char>, w: string)
    reads buf
  {
    |w| <= buf.Length && buf[..|w|] == w && forall i :: |w| <= i < buf.Length ==> buf[i] == NUL
  }

  /** buf[sp] = c behind what the buffer holds. */
  method PutCell(buf: array<char>, sp: nat, c: char, ghost w: string)
    requires sp == |w| < buf.Length && Filled(buf, w)
    modifies buf
    ensures Filled(buf, w + [c])
  {
    buf[sp] := c;
    assert buf[..sp + 1] == buf[..sp] + [c];
  }

  lemma FilledIsText(buf: array<char>, t: string)
    requires Filled(buf, t) && |t| < buf.Length && NUL !in t
    ensures HoldsText(buf[..], 0, t)
  {
    assert forall i :: 0 <= i < |t| ==> buf[..][i] == t[i] && t[i] in t;
  }
}
