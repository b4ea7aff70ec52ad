/** Multi-strings as text with one line a string, and back (utils.c). */
module CrlfText {
  import opened CStrings
  import opened MultiSz

  const CR: char := '\r'
  const LF: char := '\n'

  /** The first k strings, each followed by a carriage return and a line feed. */
  function Lines(xs: seq<string>, k: nat): string
    requires k <= |xs|
  {
    if k == 0 then "" else Lines(xs, k - 1) + xs[k - 1] + [CR, LF]
  }

  /** The cells for the first k characters: a carriage return ends a string, a line feed goes. */
  function Cells(t: string, k: nat): (c: string)
    requires k <= |t|
    ensures |c| <= k
  {
    if k == 0 then ""
    else if t[k - 1] == CR then Cells(t, k - 1) + [NUL]
    else if t[k - 1] == LF then Cells(t, k - 1)
    else Cells(t, k - 1) + [t[k - 1]]
  }

  lemma {:induction false} LinesOfPrefix(xs: seq<string>, ys: seq<string>, k: nat)
    requires k <= |xs|
    ensures Lines(xs + ys, k) == Lines(xs, k)
  {
    if k > 0 {
      LinesOfPrefix(xs, ys, k - 1);
    }
  }

  /** One string more is one line more. */
  lemma LinesMean(xs: seq<string>, x: string)
    ensures Lines([], 0) == "" && Lines(xs + [x], |xs| + 1) == Lines(xs, |xs|) + x + "\r\n"
  {
    LinesOfPrefix(xs, [x], |xs|);
    assert (xs + [x])[|xs|] == x;
  }

  lemma {:induction false} LinesLength(xs: seq<string>, k: nat)
    requires k <= |xs| && AreItems(xs)
    ensures |Lines(xs, k)| + Size(xs, k) + |xs| - k == Size(xs, 0) + |xs|
    ensures NUL !in Lines(xs, k)
  {
    if k > 0 {
      LinesLength(xs, k - 1);
    }
  }

  lemma LinesFit(a: seq<char>, xs: seq<string>)
    requires IsMultiSz(a, 0) && xs == Strings(a, 0)
    ensures HoldsStrings(a, 0, xs, 0)
    ensures |Lines(xs, |xs|)| == Size(xs, 0) + |xs| && NUL !in Lines(xs, |xs|)
  {
    StringsAreHeld(a, 0);
    HeldAreItems(a, 0, xs, 0);
    LinesLength(xs, |xs|);
  }

  /** Copies one string, without its end. */
  method CopyText(str: array<char>, start: nat, rv: array<char>, at: nat, ghost x: string, ghost w: string)
      returns (p: nat, b: nat)
    requires str != rv && HoldsText(str[..], start, x)
    requires at == |w| && at + |x| < rv.Length && Filled(rv, w)
    modifies rv
    ensures p == start + |x| && b == at + |x| && Filled(rv, w + x)
  {
    assert forall i {:trigger str[i]} :: start <= i <= start + |x| ==> str[i] == str[..][i];
    p, b := start, at;
    assert w + x[..0] == w;
    while str[p] != NUL
      invariant start <= p <= start + |x| && b == at + (p - start)
      invariant Filled(rv, w + x[..p - start])
      decreases start + |x| - p
    {
      PutCell(rv, b, str[p], w + x[..p - start]);
      assert w + x[..p - start + 1] == w + x[..p - start] + [str[p]];
      b := b + 1;
      p := p + 1;
    }
    assert x[..p - start] == x;
  }

  /** The two characters behind a string. */
  method EndLine(rv: array<char>, at: nat, ghost w: string) returns (b: nat)
    requires at == |w| && at + 2 <= rv.Length && Filled(rv, w)
    modifies rv
    ensures b == at + 2 && Filled(rv, w + [CR, LF])
  {
    b := at;
    PutCell(rv, b, CR, w);
    b := b + 1;
    PutCell(rv, b, LF, w + [CR]);
    b := b + 1;
    assert w + [CR] + [LF] == w + [CR, LF];
  }

  lemma OneLineMore(xs: seq<string>, k: nat)
    requires k < |xs|
    ensures Lines(xs, k + 1) == Lines(xs, k) + xs[k] + [CR, LF]
  {
  }

  /** The rounds of the loop that copy one string and end it with a line break. */
  method CopyLine(str: array<char>, start: nat, rv: array<char>, at: nat, ghost xs: seq<string>, ghost k: nat)
      returns (p: nat, b: nat)
    requires str != rv && k < |xs| && HoldsStrings(str[..], start, xs, k)
    requires at == |Lines(xs, k)| && at + |xs[k]| + 2 <= rv.Length && Filled(rv, Lines(xs, k))
    modifies rv
    ensures HoldsStrings(str[..], p, xs, k + 1)
    ensures b == at + |xs[k]| + 2 && Filled(rv, Lines(xs, k + 1))
  {
    p, b := CopyText(str, start, rv, at, xs[k], Lines(xs, k));
    b := EndLine(rv, b, Lines(xs, k) + xs[k]);
    p := p + 1;
    OneLineMore(xs, k);
  }

  /** The loop over the c strings. */
  method CopyLines(str: array<char>, rv: array<char>, c: nat, ghost xs: seq<string>)
    requires str != rv && HoldsStrings(str[..], 0, xs, 0) && c == |xs|
    requires Filled(rv, "") && Size(xs, 0) + |xs| + 2 <= rv.Length
    modifies rv
    ensures Filled(rv, Lines(xs, |xs|))
  {
    var left := c;
    var p, b := 0, 0;
    ghost var k := 0;
    while left > 0
      invariant 0 <= k <= |xs| && left == |xs| - k
      invariant HoldsStrings(str[..], p, xs, k)
      invariant b == |Lines(xs, k)| && b + Size(xs, k) + left == Size(xs, 0) + |xs|
      invariant Filled(rv, Lines(xs, k))
    {
      p, b := CopyLine(str, p, rv, b, xs, k);
      left := left - 1;
      k := k + 1;
    }
  }

  /** apxMszToCRLFW. */
  method MszToCRLF(str: array?<char>) returns (rv: array<char>)
    requires IsMultiSzPtr(str)
    ensures fresh(rv)
    ensures HoldsText(rv[..], 0, Lines(StringsOf(str), |StringsOf(str)|))
  {
    ghost var xs := StringsOf(str);
    var l, c := GetLength(str);
    rv := new char[l + c + 2](_ => NUL);
    if str != null {
      LinesFit(str[..], xs);
      CopyLines(str, rv, c, xs);
    }
    FilledIsText(rv, Lines(xs, |xs|));
  }

  /** apxCRLFToMszW, and the byte count it reports. */
  method CRLFToMsz(str: array<char>, ghost t: string) returns (rv: array<char>, bytes: nat)
    requires HoldsText(str[..], 0, t)
    ensures fresh(rv) && rv.Length == |t| + 2
    ensures Filled(rv, Cells(t, |t|))
    ensures bytes == 2 * (|Cells(t, |t|)| + 2) <= 2 * rv.Length
  {
    HeldText(str[..], 0, t);
    var l := StrLen(str[..], 0);
    rv := new char[l + 2](_ => NUL);
    var b, n := 0, 0;
    assert forall i {:trigger str[i]} :: 0 <= i < l ==> str[i] == str[..][i] == t[i];
    for c := 0 to l
      invariant b == n == |Cells(t, c)| && Filled(rv, Cells(t, c))
    {
      if str[c] == CR {
        PutCell(rv, b, NUL, Cells(t, c));
        b, n := b + 1, n + 1;
      } else if str[c] != LF {
        PutCell(rv, b, str[c], Cells(t, c));
        b, n := b + 1, n + 1;
      }
    }
    bytes := (n + 2) * WCHAR_SIZE;
  }

  // ----- There and back -----

  ghost predicate Clean(x: string) {
    CR !in x && LF !in x
  }

  lemma {:induction false} CellsAreClean(t: string, k: nat)
    requires k <= |t|
    ensures Clean(Cells(t, k))
  {
    if k > 0 {
      CellsAreClean(t, k - 1);
    }
  }

  /** Cells looks at one character at a time. */
  lemma {:induction false} CellsOfPrefix(t: string, u: string, k: nat)
    requires k <= |t|
    ensures Cells(t + u, k) == Cells(t, k)
  {
    if k > 0 {
      CellsOfPrefix(t, u, k - 1);
    }
  }

  /** The first k strings, each followed by its NUL. */
  function PackedTo(xs: seq<string>, k: nat): string
    requires k <= |xs|
  {
    if k == 0 then "" else PackedTo(xs, k - 1) + xs[k - 1] + [NUL]
  }

  /** The cells of the lines of clean strings are the strings, packed. */
  lemma {:induction false} PackedAgain(xs: seq<string>, k: nat)
    requires k <= |xs| && forall x :: x in xs ==> Clean(x)
    ensures Cells(Lines(xs, k), |Lines(xs, k)|) == PackedTo(xs, k)
  {
    if k > 0 {
      PackedAgain(xs, k - 1);
      assert xs[k - 1] in xs;
      CellsOfLine(Lines(xs, k - 1), xs[k - 1]);
    }
  }

  lemma CellsOfLine(t: string, x: string)
    requires Clean(x)
    ensures Cells(t + x + [CR, LF], |t + x + [CR, LF]|) == Cells(t, |t|) + x + [NUL]
  {
    CellsOfText(t, x, |x|);
    assert x[..|x|] == x && |t + x| == |t| + |x|;
    CellsOfBreak(t + x);
  }

  lemma {:induction false} CellsOfText(t: string, x: string, k: nat)
    requires Clean(x) && k <= |x|
    ensures Cells(t + x, |t| + k) == Cells(t, |t|) + x[..k]
  {
    if k == 0 {
      CellsOfPrefix(t, x, |t|);
    } else {
      CellsOfText(t, x, k - 1);
      assert (t + x)[|t| + k - 1] == x[k - 1] && x[k - 1] in x;
    }
  }

  /** One character more: a carriage return ends a string, a line feed counts for nothing. */
  lemma CellsMean(t: string, c: char)
    ensures Cells([], 0) == []
    ensures Cells(t + [c], |t| + 1) ==
      Cells(t, |t|) + if c == '\r' then ['\0'] else if c == '\n' then [] else [c]
  {
    CellsOfPrefix(t, [c], |t|);
    assert (t + [c])[|t|] == c && Cells(t, |t|) + [] == Cells(t, |t|);
  }

  lemma CellsOfBreak(u: string)
    ensures Cells(u + [CR, LF], |u + [CR, LF]|) == Cells(u, |u|) + [NUL]
  {
    var w, n := u + [CR, LF], |u|;
    CellsOfPrefix(u, [CR, LF], n);
    assert w[n] == CR && w[n + 1] == LF;
    assert Cells(w, n + 1) == Cells(w, n) + [NUL];
  }

  lemma {:induction false} PackedIsHeld(a: seq<char>, xs: seq<string>, k: nat)
    requires k <= |xs| && |PackedTo(xs, |xs|)| < |a| && AreItems(xs)
    requires a[..|PackedTo(xs, |xs|)|] == PackedTo(xs, |xs|) && a[|PackedTo(xs, |xs|)|] == NUL
    ensures HoldsStrings(a, |PackedTo(xs, k)|, xs, k)
    decreases |xs| - k
  {
    if k < |xs| {
      PackedIsHeld(a, xs, k + 1);
      PackedPrefix(xs, k + 1, |xs|);
      var p := |PackedTo(xs, k)|;
      var w := PackedTo(xs, k + 1);
      assert w == PackedTo(xs, k) + xs[k] + [NUL];
      assert forall i {:trigger a[i]} :: 0 <= i < |w| ==> a[i] == a[..|PackedTo(xs, |xs|)|][i] == w[i];
    }
  }

  lemma {:induction false} PackedPrefix(xs: seq<string>, k: nat, n: nat)
    requires k <= n <= |xs|
    ensures PackedTo(xs, k) <= PackedTo(xs, n)
    decreases n - k
  {
    if k < n {
      PackedPrefix(xs, k, n - 1);
    }
  }

  lemma {:induction false} HeldAreClean(a: seq<char>, p: int, xs: seq<string>, k: nat)
    requires k <= |xs| && HoldsStrings(a, p, xs, k)
    requires forall i :: 0 <= i < |a| ==> a[i] != CR && a[i] != LF
    ensures forall j :: k <= j < |xs| ==> Clean(xs[j])
    decreases |xs| - k
  {
    if k < |xs| {
      HeldAreClean(a, p + |xs[k]| + 1, xs, k + 1);
      forall j | 0 <= j < |xs[k]|
        ensures xs[k][j] != CR && xs[k][j] != LF
      {
        assert a[p + j] == xs[k][p + j - p];
      }
    }
  }

  /**
   * Text made from a multi-string and turned back is the same multi-string if
   * and only if no string holds a carriage return or a line feed. a is the
   * buffer that comes back.
   */
  lemma RoundTripIff(a: seq<char>, xs: seq<string>)
    requires AreItems(xs)
    requires
      var t := Lines(xs, |xs|);
      && |a| == |t| + 2
      && a[..|Cells(t, |t|)|] == Cells(t, |t|)
      && forall i :: |Cells(t, |t|)| <= i < |a| ==> a[i] == NUL
    ensures (IsMultiSz(a, 0) && Strings(a, 0) == xs) <==> forall x :: x in xs ==> Clean(x)
  {
    var t := Lines(xs, |xs|);
    var c := Cells(t, |t|);
    if forall x :: x in xs ==> Clean(x) {
      PackedAgain(xs, |xs|);
      PackedIsHeld(a, xs, 0);
      HoldsMeansStrings(a, 0, xs, 0);
    } else {
      CellsAreClean(t, |t|);
      assert forall i :: 0 <= i < |c| ==> a[i] == c[i] && c[i] in c;
      if IsMultiSz(a, 0) && Strings(a, 0) == xs {
        StringsAreHeld(a, 0);
        HeldAreClean(a, 0, xs, 0);
        assert false;
      }
    }
  }

  /** A line feed inside a string is lost on the way. */
  lemma LineFeedInside(a: seq<char>, xs: seq<string>)
    requires xs == ["a\nb"]
    requires
      var t := Lines(xs, |xs|);
      && |a| == |t| + 2
      && a[..|Cells(t, |t|)|] == Cells(t, |t|)
      && forall i :: |Cells(t, |t|)| <= i < |a| ==> a[i] == NUL
    ensures !(IsMultiSz(a, 0) && Strings(a, 0) == xs)
  {
    assert xs[0][1] == LF && xs[0] in xs;
    RoundTripIff(a, xs);
  }

  /** Both conversions one after the other. */
  method ThereAndBack(str: array?<char>) returns (rv: array<char>)
    requires IsMultiSzPtr(str)
    ensures (IsMultiSz(rv[..], 0) && Strings(rv[..], 0) == StringsOf(str))
      <==> forall x :: x in StringsOf(str) ==> Clean(x)
  {
    ghost var xs := StringsOf(str);
    if str != null {
      StringsAreHeld(str[..], 0);
      HeldAreItems(str[..], 0, xs, 0);
    }
    var text := MszToCRLF(str);
    var bytes;
    rv, bytes := CRLFToMsz(text, Lines(xs, |xs|));
    RoundTripIff(rv[..], xs);
  }
}
