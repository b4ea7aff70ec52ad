/** Unsigned numbers as hexadecimal text and back (apxUltohex and apxStrToul of utils.c). */
module HexText {
  import opened CStrings

  /** How many values a ULONG has. */
  const ULONG_RANGE: nat := 0x1_0000_0000

  const DIGITS: string := "0123456789abcdef"

  /** The least buffer length the writer accepts, and the highest cell it writes. */
  const XTOABUFFER_SIZE: nat := 10

  // ----- Bits -----

  function Pow2(k: nat): (r: nat)
    ensures r > 0
  {
    if k == 0 then 1 else 2 * Pow2(k - 1)
  }

  /** a | b. */
  function Or(a: nat, b: nat): nat {
    if a == 0 then b else if b == 0 then a
    else 2 * Or(a / 2, b / 2) + if a % 2 == 1 || b % 2 == 1 then 1 else 0
  }

  function ShiftLeft(v: nat, sh: nat): nat {
    v * Pow2(sh) % ULONG_RANGE
  }

  function Plus(a: nat, b: nat): nat {
    (a + b) % ULONG_RANGE
  }

  /** Or-ing bits into a sum whose low part they are changes nothing. */
  lemma {:induction false} OrAbsorbs(a: nat, v: nat, k: nat)
    requires a < Pow2(k)
    ensures Or(a, a + v * Pow2(k)) == a + v * Pow2(k)
  {
    if k > 0 {
      var w := v * Pow2(k - 1);
      TwiceAs(v, Pow2(k - 1), Pow2(k));
      assert a + v * Pow2(k) == a + 2 * w;
      OrAbsorbs(a / 2, v, k - 1);
      assert (a + 2 * w) / 2 == a / 2 + w && (a + 2 * w) % 2 == a % 2;
    }
  }

  lemma TwiceAs(v: nat, p: nat, q: nat)
    requires q == 2 * p
    ensures v * q == 2 * (v * p)
  {
  }

  lemma FourMore(k: nat)
    ensures Pow2(k + 4) == 16 * Pow2(k)
  {
    assert Pow2(k + 4) == 2 * Pow2(k + 3) && Pow2(k + 3) == 2 * Pow2(k + 2) && Pow2(k + 2) == 2 * Pow2(k + 1);
  }

  lemma WholeRange()
    ensures Pow2(32) == ULONG_RANGE
  {
    FourMore(0); FourMore(4); FourMore(8); FourMore(12); FourMore(16); FourMore(20); FourMore(24); FourMore(28);
  }

  lemma {:induction false} Grows(j: nat, k: nat)
    requires j <= k
    ensures Pow2(j) <= Pow2(k)
  {
    if j < k {
      Grows(j, k - 1);
    }
  }

  /** In range, neither the shift nor the sum drops a bit. */
  lemma NoWrap(rv: nat, v: nat, sh: nat, p: nat)
    requires p == v * Pow2(sh) && rv + p < ULONG_RANGE
    ensures Plus(rv, ShiftLeft(v, sh)) == rv + p
  {
    assert p % ULONG_RANGE == p;
  }

  lemma SumFits(rv: nat, v: nat, sh: nat)
    requires rv < Pow2(sh) && v < 16 && sh <= 28
    ensures rv + v * Pow2(sh) < ULONG_RANGE
  {
    FourMore(sh);
    Grows(sh + 4, 32);
    WholeRange();
    DigitFits(rv, v, Pow2(sh));
  }

  lemma DigitFits(rv: nat, v: nat, p: nat)
    requires rv < p && v < 16
    ensures rv + v * p < 16 * p
  {
    assert v * p <= 15 * p;
  }

  lemma OrOfSum(rv: nat, v: nat, sh: nat, sum: nat)
    requires rv < Pow2(sh) && sum == rv + v * Pow2(sh)
    ensures Or(rv, sum) == sum
  {
    OrAbsorbs(rv, v, sh);
  }

  /** rv |= rv + (v << sh) puts the digit v in front of the bits of rv. */
  lemma OrAddIsSum(rv: nat, v: nat, sh: nat)
    requires rv < Pow2(sh) && v < 16 && sh <= 28
    ensures Or(rv, Plus(rv, ShiftLeft(v, sh))) == rv + v * Pow2(sh)
  {
    SumFits(rv, v, sh);
    NoWrap(rv, v, sh, v * Pow2(sh));
    OrOfSum(rv, v, sh, Plus(rv, ShiftLeft(v, sh)));
  }

  // ----- Digits -----

  function DigitOf(v: nat): char
    requires v < 16
  {
    DIGITS[v]
  }

  /** What a character counts as a digit, or 16. */
  function Value(c: char): nat {
    if c == '0' then 0 else if c == '1' then 1 else if c == '2' then 2 else if c == '3' then 3
    else if c == '4' then 4 else if c == '5' then 5 else if c == '6' then 6 else if c == '7' then 7
    else if c == '8' then 8 else if c == '9' then 9
    else if c == 'a' || c == 'A' then 10 else if c == 'b' || c == 'B' then 11
    else if c == 'c' || c == 'C' then 12 else if c == 'd' || c == 'D' then 13
    else if c == 'e' || c == 'E' then 14 else if c == 'f' || c == 'F' then 15
    else 16
  }

  lemma DigitsHaveTheirValue(v: nat)
    requires v < 16
    ensures Value(DigitOf(v)) == v && DigitOf(v) != NUL && DigitOf(v) != 'x'
  {
  }

  /** Digits count from 0 to 15 in either case. */
  lemma DigitValues(v: nat)
    requires v < 16
    ensures DigitOf(v) == "0123456789abcdef"[v]
    ensures Value("0123456789abcdef"[v]) == v && Value("0123456789ABCDEF"[v]) == v
  {
  }

  /** Nothing else is a digit. */
  lemma OnlyThese(c: char)
    ensures Value(c) < 16 <==> c in "0123456789" || c in "abcdef" || c in "ABCDEF"
  {
  }

  /** The number that digits stand for, high end first. */
  function Number(s: string): nat {
    if s == "" then 0 else 16 * Number(s[..|s| - 1]) + Value(s[|s| - 1])
  }

  /** The k low digits of a number, high end first. */
  function Digits(n: nat, k: nat): (s: string)
    ensures |s| == k
  {
    if k == 0 then "" else Digits(n / 16, k - 1) + [DigitOf(n % 16)]
  }

  /** The eight digits behind "0x". */
  function Hex(n: nat): string {
    "0x" + Digits(n, 8)
  }

  /** The digits of a number stand for it. */
  lemma {:induction false} NumberOfDigits(n: nat, k: nat)
    requires n < Pow2(4 * k)
    ensures Number(Digits(n, k)) == n
  {
    if k > 0 {
      FourMore(4 * (k - 1));
      NumberOfDigits(n / 16, k - 1);
      DigitsHaveTheirValue(n % 16);
      assert Digits(n, k)[..k - 1] == Digits(n / 16, k - 1);
    }
  }

  lemma {:induction false} OnlyDigits(n: nat, k: nat)
    ensures forall i :: 0 <= i < k ==> Value(Digits(n, k)[i]) < 16 && Digits(n, k)[i] != 'x' && Digits(n, k)[i] != NUL
  {
    if k > 0 {
      OnlyDigits(n / 16, k - 1);
      DigitsHaveTheirValue(n % 16);
    }
  }

  /** n without its k low digits. */
  function Rest(n: nat, k: nat): nat {
    if k == 0 then n else Rest(n / 16, k - 1)
  }

  lemma {:induction false} RestNext(n: nat, k: nat)
    ensures Rest(n, k + 1) == Rest(n, k) / 16
  {
    if k > 0 {
      RestNext(n / 16, k - 1);
    }
  }

  /** The next digit the writer finds goes to the front. */
  lemma {:induction false} DigitInFront(n: nat, k: nat)
    ensures Digits(n, k + 1) == [DigitOf(Rest(n, k) % 16)] + Digits(n, k)
  {
    if k > 0 {
      DigitInFront(n / 16, k - 1);
    }
  }

  /** A digit in front counts by its place. */
  lemma {:induction false} PlaceValue(c: char, s: string)
    ensures Number([c] + s) == Value(c) * Pow2(4 * |s|) + Number(s)
  {
    var t := [c] + s;
    if s == "" {
      assert t[..0] == "";
    } else {
      var n := |s| - 1;
      PlaceValue(c, s[..n]);
      FourMore(4 * n);
      assert t[..|s|] == [c] + s[..n];
      SixteenTimes(Value(c), Pow2(4 * n), Pow2(4 * |s|));
    }
  }

  lemma SixteenTimes(v: nat, p: nat, q: nat)
    requires q == 16 * p
    ensures v * q == 16 * (v * p)
  {
  }

  lemma {:induction false} NumberFits(s: string)
    requires forall i :: 0 <= i < |s| ==> Value(s[i]) < 16
    ensures Number(s) < Pow2(4 * |s|)
  {
    if s != "" {
      NumberFits(s[..|s| - 1]);
      FourMore(4 * (|s| - 1));
    }
  }

  /** Every digit of the written text, at its place. */
  lemma HexIs(n: nat)
    ensures |Hex(n)| == 10 && Hex(n)[0] == '0' && Hex(n)[1] == 'x'
    ensures
      var h, d := Hex(n), "0123456789abcdef";
      && h[9] == d[n % 16] && h[8] == d[n / 0x10 % 16] && h[7] == d[n / 0x100 % 16] && h[6] == d[n / 0x1000 % 16]
      && h[5] == d[n / 0x1_0000 % 16] && h[4] == d[n / 0x10_0000 % 16]
      && h[3] == d[n / 0x100_0000 % 16] && h[2] == d[n / 0x1000_0000 % 16]
  {
    DigitAt(n, 8, 0); DigitAt(n, 8, 1); DigitAt(n, 8, 2); DigitAt(n, 8, 3);
    DigitAt(n, 8, 4); DigitAt(n, 8, 5); DigitAt(n, 8, 6); DigitAt(n, 8, 7);
    RestIs(n);
  }

  lemma RestIs(n: nat)
    ensures Rest(n, 0) == n && Rest(n, 1) == n / 0x10 && Rest(n, 2) == n / 0x100 && Rest(n, 3) == n / 0x1000
    ensures Rest(n, 4) == n / 0x1_0000 && Rest(n, 5) == n / 0x10_0000
    ensures Rest(n, 6) == n / 0x100_0000 && Rest(n, 7) == n / 0x1000_0000
  {
    RestNext(n, 0); RestNext(n, 1); RestNext(n, 2); RestNext(n, 3);
    RestNext(n, 4); RestNext(n, 5); RestNext(n, 6);
  }

  lemma {:induction false} DigitAt(n: nat, k: nat, i: nat)
    requires i < k
    ensures Digits(n, k)[k - 1 - i] == "0123456789abcdef"[Rest(n, i) % 16]
  {
    if i == 0 {
      DigitValues(n % 16);
    } else {
      DigitAt(n / 16, k - 1, i - 1);
    }
  }

  // ----- The writer -----

  /** One write; written are the cells written so far. */
  method Store(mem: array<char>, i: nat, c: char, ghost written: set<nat>) returns (ghost written': set<nat>)
    requires i < mem.Length
    modifies mem
    ensures mem[..] == old(mem[..])[i := c] && written' == written + {i}
  {
    mem[i] := c;
    written' := written + {i};
  }

  /** The loop that writes the digits from the low end, last cell first. */
  method WriteDigits(n: nat, mem: array<char>, last: nat, ghost written: set<nat>)
      returns (p: nat, ghost written': set<nat>)
    requires last == 9 < mem.Length
    modifies mem
    ensures p == 1 && forall j :: j in written' <==> j in written || 2 <= j <= 9
    ensures mem[2..10] == Digits(n, 8)
    ensures forall j {:trigger mem[j]} :: 0 <= j < 2 || 9 < j < mem.Length ==> mem[j] == old(mem[j])
  {
    p, written' := last, written;
    var m := n;
    for i := 0 to 8
      invariant p == 9 - i && m == Rest(n, i)
      invariant forall j :: j in written' <==> j in written || p < j <= 9
      invariant mem[p + 1..10] == Digits(n, i)
      invariant forall j {:trigger mem[j]} :: 0 <= j < 2 || 9 < j < mem.Length ==> mem[j] == old(mem[j])
    {
      DigitInFront(n, i);
      RestNext(n, i);
      ghost var b := mem[..];
      assert b[p + 1..10] == mem[p + 1..10];
      written' := Store(mem, p, DigitOf(m % 16), written');
      assert mem[p..10] == mem[..][p..10] == [DigitOf(m % 16)] + b[p + 1..10];
      p := p - 1;
      m := m / 16;
    }
  }

  /**
   * apxUltohex. mem is the memory from the buffer on, the buffer is its first
   * length cells. The number's text, unless the buffer is too short. written are
   * the cells that are written, also those behind the buffer: all stay inside it
   * if and only if it has cells, but not ten.
   */
  method Ultohex(n: nat, mem: array<char>, length: nat) returns (ok: bool, ghost written: set<nat>)
    requires n < ULONG_RANGE
    requires mem.Length > 0 && (length >= XTOABUFFER_SIZE ==> XTOABUFFER_SIZE < mem.Length)
    modifies mem
    ensures ok <==> length >= 10
    ensures if ok then HoldsText(mem[..], 0, Hex(n)) else mem[0] == '\0'
    ensures forall i: nat :: i in written <==> i <= if ok then 10 else 0
    ensures forall i {:trigger mem[i]} :: 0 <= i < mem.Length && i !in written ==> mem[i] == old(mem[i])
    ensures (forall i :: i in written ==> i < length) <==> length > 0 && length != 10
  {
    written := Store(mem, 0, NUL, {});
    if length < XTOABUFFER_SIZE {
      return false, written;
    }
    var p := XTOABUFFER_SIZE;
    written := Store(mem, p, NUL, written);
    p := p - 1;
    p, written := WriteDigits(n, mem, p, written);
    ghost var b := mem[..];
    written := Store(mem, p, 'x', written);
    p := p - 1;
    written := Store(mem, p, '0', written);
    assert mem[..] == b[1 := 'x'][0 := '0'] && b[2..10] == mem[2..10];
    HoldsHex(mem[..], n);
    assert XTOABUFFER_SIZE in written;
    ok := true;
  }

  /** A buffer of ten cells: the cell behind it is overwritten. */
  method TenCells(n: nat) returns (mem: array<char>, ok: bool)
    requires n < ULONG_RANGE
    ensures fresh(mem) && mem.Length == XTOABUFFER_SIZE + 1 && ok && mem[XTOABUFFER_SIZE] == NUL
  {
    mem := new char[XTOABUFFER_SIZE + 1](_ => '#');
    ghost var written;
    ok, written := Ultohex(n, mem, XTOABUFFER_SIZE);
    assert mem[..][XTOABUFFER_SIZE] == NUL;
  }

  lemma HoldsHex(b: seq<char>, n: nat)
    requires |b| > XTOABUFFER_SIZE && b[0] == '0' && b[1] == 'x' && b[XTOABUFFER_SIZE] == NUL
    requires b[2..10] == Digits(n, 8)
    ensures HoldsText(b, 0, Hex(n))
  {
    OnlyDigits(n, 8);
    assert forall i :: 2 <= i < 10 ==> b[i] == b[2..10][i - 2] == Hex(n)[i];
  }

  // ----- The reader -----

  /** Where the reader takes the 'x' to be: the first place that ends its search. */
  function SearchEnd(t: string, p: nat): (q: nat)
    requires 1 <= p <= |t|
    ensures p <= q <= |t|
    decreases |t| - p
  {
    if p < |t| && t[p] != 'x' && t[p - 1] != '0' then SearchEnd(t, p + 1) else p
  }

  /** The last 'x' of the text. */
  function LastX(t: string): (k: int)
    ensures -1 <= k < |t| && (k >= 0 ==> t[k] == 'x')
    ensures forall i :: k < i < |t| ==> t[i] != 'x'
  {
    if t == "" then -1 else if t[|t| - 1] == 'x' then |t| - 1 else LastX(t[..|t| - 1])
  }

  /** No wrong digit from p on. */
  predicate AllDigits(t: string, p: nat) {
    forall i :: p <= i < |t| ==> Value(t[i]) < 16
  }

  /** What the text is read as: a place that ends the search must be an 'x', and only digits follow the last. */
  function Read(t: string): nat
    requires t != ""
  {
    if SearchEnd(t, 1) < |t| && t[SearchEnd(t, 1)] == 'x' && AllDigits(t, LastX(t) + 1) then Number(t[LastX(t) + 1..])
    else 0
  }

  /** The search ends at the first place that has an 'x', or a '0' in front of it. */
  lemma {:induction false} SearchEndIs(t: string, p: nat, q: nat)
    requires 1 <= p <= q <= |t| && (q < |t| ==> t[q] == 'x' || t[q - 1] == '0')
    requires (forall i :: p <= i < q ==> t[i] != 'x') && forall i :: p - 1 <= i < q - 1 ==> t[i] != '0'
    ensures SearchEnd(t, p) == q
    decreases q - p
  {
    if p < q {
      SearchEndIs(t, p + 1, q);
    }
  }

  /** Behind the last 'x' stands the number, or something that is no digit. */
  lemma ReadIs(t: string, q: nat, x: nat)
    requires 1 <= q <= x < |t| && t[q] == 'x' && t[x] == 'x' && forall i :: x < i < |t| ==> t[i] != 'x'
    requires (forall i :: 1 <= i < q ==> t[i] != 'x') && forall i :: 0 <= i < q - 1 ==> t[i] != '0'
    ensures Read(t) ==
      if forall i :: x < i < |t| ==> t[i] in "0123456789" || t[i] in "abcdef" || t[i] in "ABCDEF" then Number(t[x + 1..]) else 0
  {
    SearchEndIs(t, 1, q);
    LastXIs(t, x);
    DigitsBehind(t, x);
  }

  lemma LastXIs(t: string, x: nat)
    requires x < |t| && t[x] == 'x' && forall i :: x < i < |t| ==> t[i] != 'x'
    ensures LastX(t) == x
  {
    assert LastX(t) >= x;
  }

  lemma DigitsBehind(t: string, x: nat)
    requires x < |t|
    ensures AllDigits(t, x + 1) <==> forall i :: x < i < |t| ==> t[i] in "0123456789" || t[i] in "abcdef" || t[i] in "ABCDEF"
  {
    forall i | x < i < |t|
      ensures Value(t[i]) < 16 <==> t[i] in "0123456789" || t[i] in "abcdef" || t[i] in "ABCDEF"
    {
      OnlyThese(t[i]);
    }
  }

  /** A text without an 'x' where the search ends is read as zero. */
  lemma ReadAsZero(t: string, q: nat)
    requires 1 <= q <= |t| && (q < |t| ==> t[q] != 'x' && t[q - 1] == '0')
    requires (forall i :: 1 <= i < q ==> t[i] != 'x') && forall i :: 0 <= i < q - 1 ==> t[i] != '0'
    ensures Read(t) == 0
  {
    SearchEndIs(t, 1, q);
  }

  /** The text of a number is read as that number. */
  lemma HexReadsBack(n: nat)
    requires n < ULONG_RANGE
    ensures |Hex(n)| == 10 && LastX(Hex(n)) == 1 && Read(Hex(n)) == n
  {
    var t := Hex(n);
    OnlyDigits(n, 8);
    assert forall i :: 2 <= i < 10 ==> t[i] == Digits(n, 8)[i - 2];
    assert t[1] == 'x' && t[2..] == Digits(n, 8);
    WholeRange();
    NumberOfDigits(n, 8);
  }

  /** rv |= rv + (v << sh), with the k digits s read so far: one more digit in front. */
  method AddDigit(rv: nat, v: nat, sh: nat, ghost c: char, ghost s: string) returns (r: nat)
    requires |s| < 8 && sh == 4 * |s| && v == Value(c) < 16
    requires rv == Number(s) && forall i :: 0 <= i < |s| ==> Value(s[i]) < 16
    ensures r == Number([c] + s)
  {
    NumberFits(s);
    PlaceValue(c, s);
    OrAddIsSum(rv, v, sh);
    r := Or(rv, Plus(rv, ShiftLeft(v, sh)));
  }

  /** A ninth digit is reached, which would be shifted by the width of the number. */
  predicate NinthDigit(t: string) {
    |t| - LastX(t) > 9 && AllDigits(t, |t| - 9)
  }

  /** apxStrToul, of a text that is not empty and has no ninth digit behind its last 'x'. */
  method StrToul(buf: array<char>, ghost t: string) returns (rv: nat)
    requires HoldsText(buf[..], 0, t) && t != ""
    requires SearchEnd(t, 1) < |t| && t[SearchEnd(t, 1)] == 'x' ==> !NinthDigit(t)
    ensures rv == Read(t)
  {
    var p := FindX(buf, t);
    if buf[p] != 'x' {
      return 0;
    }
    p := GoToLast(buf, p, t);
    rv := ReadDigits(buf, p, t);
  }

  /** The search for the 'x'. */
  method FindX(buf: array<char>, ghost t: string) returns (p: nat)
    requires HoldsText(buf[..], 0, t) && t != ""
    ensures p == SearchEnd(t, 1) < buf.Length && buf[p] == if p < |t| then t[p] else NUL
  {
    assert forall i {:trigger buf[i]} :: 0 <= i <= |t| ==> buf[i] == buf[..][i];
    p := 1;
    while buf[p] != NUL && buf[p] != 'x' && buf[p - 1] != '0'
      invariant 1 <= p <= |t| && SearchEnd(t, 1) == SearchEnd(t, p)
      decreases |t| - p
    {
      p := p + 1;
    }
  }

  /** The walk to the last character. */
  method GoToLast(buf: array<char>, start: nat, ghost t: string) returns (p: nat)
    requires HoldsText(buf[..], 0, t) && start < |t|
    ensures p == |t| - 1
  {
    assert forall i {:trigger buf[i]} :: 0 <= i <= |t| ==> buf[i] == buf[..][i];
    p := start;
    while buf[p + 1] != NUL
      invariant start <= p < |t|
      decreases |t| - p
    {
      p := p + 1;
    }
  }

  /** The loop back from the last digit to the 'x'. */
  method ReadDigits(buf: array<char>, last: nat, ghost t: string) returns (rv: nat)
    requires HoldsText(buf[..], 0, t) && 0 <= LastX(t) <= last == |t| - 1 && !NinthDigit(t)
    ensures rv == if AllDigits(t, LastX(t) + 1) then Number(t[LastX(t) + 1..]) else 0
  {
    assert forall i {:trigger buf[i]} :: 0 <= i < |t| ==> buf[i] == buf[..][i] == t[i];
    var p := last;
    rv := 0;
    var sh := 0;
    while buf[p] != 'x'
      invariant LastX(t) <= p <= last && sh == 4 * (last - p)
      invariant rv == Number(t[p + 1..]) && AllDigits(t, p + 1)
      decreases p
    {
      var v := Value(buf[p]);
      p := p - 1;
      if v == 16 {
        return 0;
      }
      assert t[p + 1..] == [t[p + 1]] + t[p + 2..];
      rv := AddDigit(rv, v, sh, t[p + 1], t[p + 2..]);
      sh := sh + 4;
    }
  }

  /** Writing a number and reading it again gives the number. */
  method WriteAndRead(n: nat) returns (r: nat)
    requires n < ULONG_RANGE
    ensures r == n
  {
    var buf := new char[XTOABUFFER_SIZE + 1](_ => NUL);
    var ok;
    ghost var written;
    ok, written := Ultohex(n, buf, buf.Length);
    HexReadsBack(n);
    r := StrToul(buf, Hex(n));
  }
}
