/**
 * Unquoting in place (utils.c) and the option array that is cut out of one
 * packed buffer while its strings are being unquoted (javajni.c).
 */
module JvmOptions {
  import opened CStrings
  import opened MultiSz

  // ----- What unquoting means -----

  /** The first k characters of t without ch. */
  function Without(t: string, ch: char, k: nat): (w: string)
    requires k <= |t|
    ensures |w| <= k && ch !in w
  {
    if k == 0 then ""
    else if t[k - 1] == ch then Without(t, ch, k - 1)
    else Without(t, ch, k - 1) + [t[k - 1]]
  }

  /** A space stands between the first double quote and the second one, or the end. */
  ghost predicate SpaceInFirstQuotes(t: string) {
    exists i, j ::
      && 0 <= i < j < |t| && t[i] == '"' && t[j] == ' '
      && forall n :: 0 <= n < j && n != i ==> t[n] != '"'
  }

  ghost function Unquoted(t: string): string {
    if SpaceInFirstQuotes(t) then t
    else Without(t, '"', |t|)
  }

  /** The characters that are not ch, in order: each text by itself, and each character. */
  lemma {:induction false} WithoutOfTwo(t: string, u: string, ch: char)
    ensures Without(t + u, ch, |t + u|) == Without(t, ch, |t|) + Without(u, ch, |u|)
  {
    WithoutAlong(t, u, ch, |u|);
  }

  lemma {:induction false} WithoutAlong(t: string, u: string, ch: char, k: nat)
    requires k <= |u|
    ensures Without(t + u, ch, |t| + k) == Without(t, ch, |t|) + Without(u, ch, k)
  {
    if k == 0 {
      WithoutPrefix(t, u, ch, |t|);
    } else {
      WithoutAlong(t, u, ch, k - 1);
      WithoutNext(t + u, ch, |t| + k - 1);
      WithoutNext(u, ch, k - 1);
    }
  }

  lemma WithoutNext(t: string, ch: char, k: nat)
    requires k < |t|
    ensures Without(t, ch, k + 1) == Without(t, ch, k) + if t[k] == ch then [] else [t[k]]
  {
  }

  lemma {:induction false} WithoutPrefix(t: string, u: string, ch: char, k: nat)
    requires k <= |t|
    ensures Without(t + u, ch, k) == Without(t, ch, k)
  {
    if k > 0 {
      WithoutPrefix(t, u, ch, k - 1);
    }
  }

  lemma {:induction false} WithoutAbsent(t: string, ch: char, k: nat)
    requires k <= |t| && ch !in t[..k]
    ensures Without(t, ch, k) == t[..k]
  {
    if k > 0 {
      assert t[..k] == t[..k - 1] + [t[k - 1]];
      WithoutAbsent(t, ch, k - 1);
    }
  }

  /** A text without quotes stays as it is. */
  lemma UnquotedPlain(t: string)
    requires '"' !in t
    ensures Unquoted(t) == t
  {
    assert t[..|t|] == t;
    WithoutAbsent(t, '"', |t|);
    assert forall i :: 0 <= i < |t| ==> t[i] in t;
  }

  /** The two quotes around b go, and all behind them, unless a space stands between the two. */
  lemma UnquotedTwo(a: string, b: string, c: string)
    requires '"' !in a && '"' !in b
    ensures Unquoted(a + "\"" + b + "\"" + c) ==
      if ' ' in b then a + "\"" + b + "\"" + c else a + b + Without(c, '"', |c|)
  {
    SpaceBetween(a + "\"" + b + "\"" + c, a, b, c);
    WithoutTwo(a, b, c);
  }

  lemma OnlyTwoQuotes(a: string, b: string, c: string)
    requires '"' !in a && '"' !in b && '"' !in c && ' ' !in b
    ensures Unquoted(a + "\"" + b + "\"" + c) == a + b + c
  {
    UnquotedTwo(a, b, c);
    WithoutAbsent(c, '"', |c|);
    assert c[..|c|] == c;
  }

  lemma SpaceBetween(t: string, a: string, b: string, c: string)
    requires '"' !in a && '"' !in b && t == a + "\"" + b + "\"" + c
    ensures SpaceInFirstQuotes(t) <==> ' ' in b
  {
    var q, r := |a|, |a| + 1 + |b|;
    assert forall n :: 0 <= n < q ==> t[n] == a[n] && a[n] in a;
    assert forall n :: q < n < r ==> t[n] == b[n - q - 1] && b[n - q - 1] in b;
    assert t[q] == '"' && t[r] == '"';
    FirstQuotes(t, q, r);
    if ' ' in b {
      var j :| 0 <= j < |b| && b[j] == ' ';
      assert t[q + 1 + j] == ' ';
    }
  }

  lemma WithoutTwo(a: string, b: string, c: string)
    requires '"' !in a && '"' !in b
    ensures var t := a + "\"" + b + "\"" + c; Without(t, '"', |t|) == a + b + Without(c, '"', |c|)
  {
    WithoutOfTwo(a + "\"" + b + "\"", c, '"');
    WithoutOfTwo(a + "\"" + b, "\"", '"');
    WithoutOfTwo(a + "\"", b, '"');
    WithoutOfTwo(a, "\"", '"');
    assert Without("\"", '"', 1) == Without("\"", '"', 0) == "";
    WithoutAbsent(a, '"', |a|);
    WithoutAbsent(b, '"', |b|);
    assert a[..|a|] == a && b[..|b|] == b;
  }

  /** Where the first two quotes are, only a space between them counts. */
  lemma FirstQuotes(t: string, q: nat, r: nat)
    requires q < r < |t| && t[q] == '"' && t[r] == '"'
    requires forall n :: 0 <= n < r && n != q ==> t[n] != '"'
    ensures SpaceInFirstQuotes(t) <==> exists j :: q < j < r && t[j] == ' '
  {
  }

  lemma WithoutOne(a: string, b: string)
    requires '"' !in a && '"' !in b
    ensures var t := a + "\"" + b; Without(t, '"', |t|) == a + b
  {
    WithoutOfTwo(a + "\"", b, '"');
    WithoutOfTwo(a, "\"", '"');
    assert Without("\"", '"', 1) == Without("\"", '"', 0) == "";
    WithoutAbsent(a, '"', |a|);
    WithoutAbsent(b, '"', |b|);
    assert a[..|a|] == a && b[..|b|] == b;
  }

  /** Behind the only quote, any space counts. */
  lemma OnlyQuote(t: string, q: nat)
    requires q < |t| && t[q] == '"' && forall n :: 0 <= n < |t| && n != q ==> t[n] != '"'
    ensures SpaceInFirstQuotes(t) <==> exists j :: q < j < |t| && t[j] == ' '
  {
  }

  /** A quote that is not closed counts up to the end. */
  lemma UnquotedOne(a: string, b: string)
    requires '"' !in a && '"' !in b
    ensures Unquoted(a + "\"" + b) == if ' ' in b then a + "\"" + b else a + b
  {
    var t, q := a + "\"" + b, |a|;
    assert forall n :: 0 <= n < q ==> t[n] == a[n] && a[n] in a;
    assert forall n :: q < n < |t| ==> t[n] == b[n - q - 1] && b[n - q - 1] in b;
    assert t[q] == '"';
    OnlyQuote(t, q);
    if ' ' in b {
      var j :| 0 <= j < |b| && b[j] == ' ';
      assert t[q + 1 + j] == ' ';
    } else {
      WithoutOne(a, b);
    }
  }

  // ----- The code -----

  /** In b the text stood at p; what is kept of its first k characters now ends at q, all else is as it was. */
  ghost predicate Compacted(now: seq<char>, b: seq<char>, p: nat, t: string, ch: char, k: nat, q: nat)
    requires k <= |t|
  {
    var w := Without(t, ch, k);
    && |now| == |b| && q == p + |w| <= |b|
    && (forall i {:trigger now[i]} :: p <= i < q ==> now[i] == w[i - p] && now[i] != NUL)
    && (forall i {:trigger now[i]} :: 0 <= i < p || q <= i < |b| ==> now[i] == b[i])
  }

  /** One round of the loop: the character at r is kept or dropped. */
  method KeepOrDrop(buf: array<char>, r: nat, at: nat, ch: char, ghost b: seq<char>, ghost p: nat, ghost t: string, ghost k: nat)
      returns (q: nat)
    requires HoldsText(b, p, t) && k < |t| && r == p + k && Compacted(buf[..], b, p, t, ch, k, at)
    modifies buf
    ensures Compacted(buf[..], b, p, t, ch, k + 1, q)
    ensures q == if t[k] == ch then at else at + 1
  {
    q := at;
    assert buf[r] == buf[..][r] == b[r] == t[r - p];
    if buf[r] != ch {
      buf[q] := buf[r];
      q := q + 1;
    }
  }

  /** The terminator behind what is kept. */
  method EndKept(buf: array<char>, q: nat, ch: char, ghost b: seq<char>, ghost p: nat, ghost t: string)
    requires HoldsText(b, p, t) && Compacted(buf[..], b, p, t, ch, |t|, q)
    modifies buf
    ensures HoldsText(buf[..], p, Without(t, ch, |t|))
    ensures forall i {:trigger buf[i]} :: 0 <= i < p || p + |t| < i < buf.Length ==> buf[i] == b[i]
  {
    buf[q] := NUL;
  }

  /** apxStrCharRemoveA: compacts the string and counts what was dropped. */
  method CharRemove(buf: array<char>, p: nat, ch: char, ghost t: string) returns (c: nat)
    requires HoldsText(buf[..], p, t)
    modifies buf
    ensures c == |t| - |Without(t, ch, |t|)|
    ensures HoldsText(buf[..], p, Without(t, ch, |t|))
    ensures forall i {:trigger buf[i]} :: 0 <= i < p || p + |t| < i < buf.Length ==> buf[i] == old(buf[i])
  {
    ghost var b := buf[..];
    var r, q := p, p;
    c := 0;
    if buf[p] == NUL {
      return;
    }
    ghost var k := 0;
    assert Compacted(buf[..], b, p, t, ch, 0, q);
    while buf[r] != NUL
      invariant 0 <= k <= |t| && r == p + k && c == r - q
      invariant Compacted(buf[..], b, p, t, ch, k, q) && buf[..][r] == b[r]
      decreases |t| - k
    {
      var next := KeepOrDrop(buf, r, q, ch, b, p, t, k);
      if next == q {
        c := c + 1;
      }
      q, r, k := next, r + 1, k + 1;
    }
    EndKept(buf, q, ch, b, p, t);
  }

  /** apxStrUnQuoteInplaceA: how many quotes were removed. */
  method UnQuoteInplace(buf: array<char>, p: nat, ghost t: string) returns (c: nat)
    requires HoldsText(buf[..], p, t)
    modifies buf
    ensures HoldsText(buf[..], p, Unquoted(t)) && c == |t| - |Unquoted(t)|
    ensures forall i {:trigger buf[i]} :: 0 <= i < p || p + |t| < i < buf.Length ==> buf[i] == old(buf[i])
  {
    assert forall i {:trigger buf[i]} :: p <= i < p + |t| ==> buf[i] == buf[..][i] == t[i - p];
    var q, needsQuote, inQuote := p, false, false;
    ghost var k, first := 0, 0;
    while buf[q] != NUL
      invariant 0 <= k <= |t| && q == p + k
      invariant if inQuote then 0 <= first < k && t[first] == '"' && forall n :: 0 <= n < k && n != first ==> t[n] != '"'
                else forall n :: 0 <= n < k ==> t[n] != '"'
      invariant inQuote ==> forall n :: first <= n < k ==> t[n] != ' '
      invariant !needsQuote
      decreases |t| - k
    {
      if buf[q] == '"' {
        if inQuote {
          break;
        } else {
          inQuote, first := true, k;
        }
      } else if buf[q] == ' ' {
        if inQuote {
          needsQuote := true;
          break;
        }
      }
      q := q + 1;
      k := k + 1;
    }
    assert needsQuote <==> SpaceInFirstQuotes(t);
    if !needsQuote {
      c := CharRemove(buf, p, '"', t);
    } else {
      c := 0;
    }
  }

  // ----- The option array -----

  lemma TextKept(a: seq<char>, c: seq<char>, p: nat, t: string)
    requires HoldsText(a, p, t) && |c| == |a|
    requires forall i {:trigger c[i]} :: p <= i <= p + |t| ==> c[i] == a[i]
    ensures HoldsText(c, p, t)
  {
    assert c[p + |t|] == a[p + |t|];
  }

  lemma {:induction false} StringsKept(a: seq<char>, c: seq<char>, p: nat, xs: seq<string>, k: nat)
    requires k <= |xs| && HoldsStrings(a, p, xs, k) && |c| == |a|
    requires forall i {:trigger c[i]} :: p <= i < |a| ==> c[i] == a[i]
    ensures HoldsStrings(c, p, xs, k)
    decreases |xs| - k
  {
    if k < |xs| {
      TextKept(a, c, p, xs[k]);
      StringsKept(a, c, p + |xs[k]| + 1, xs, k + 1);
    } else {
      assert c[p] == a[p];
    }
  }

  /** Where string k began in the packed buffer. */
  function Start(xs: seq<string>, k: nat): int
    requires k <= |xs|
  {
    Size(xs, 0) - Size(xs, k)
  }

  /** Option k points at its string's original start and finds the unquoted string there. */
  ghost predicate OptionReady(a: seq<char>, opts: seq<int>, xs: seq<string>, k: nat)
    requires k < |xs|
  {
    && k < |opts| && opts[k] == Start(xs, k)
    && HoldsText(a, opts[k], Unquoted(xs[k]))
  }

  ghost predicate OptionsReady(a: seq<char>, opts: seq<int>, xs: seq<string>, n: nat)
    requires n <= |xs|
  {
    forall k :: 0 <= k < n ==> OptionReady(a, opts, xs, k)
  }

  lemma ReadyMeans(a: seq<char>, opts: seq<int>, xs: seq<string>)
    requires OptionsReady(a, opts, xs, |xs|) && |xs| <= |opts|
    ensures forall i :: 0 <= i < |xs| ==> HoldsText(a, opts[i], Unquoted(xs[i]))
  {
    forall i | 0 <= i < |xs|
      ensures HoldsText(a, opts[i], Unquoted(xs[i]))
    {
      assert OptionReady(a, opts, xs, i);
    }
  }

  /** Unquotes string k where it stands; the strings before and behind it are not touched. */
  method UnQuoteString(buf: array<char>, p: nat, ghost xs: seq<string>, ghost k: nat, ghost opts: seq<int>) returns (qr: nat)
    requires k < |xs| && HoldsStrings(buf[..], p, xs, k) && p == Start(xs, k)
    requires OptionsReady(buf[..], opts, xs, k)
    modifies buf
    ensures qr == |xs[k]| - |Unquoted(xs[k])|
    ensures HoldsText(buf[..], p, Unquoted(xs[k]))
    ensures HoldsStrings(buf[..], p + |xs[k]| + 1, xs, k + 1)
    ensures OptionsReady(buf[..], opts, xs, k)
  {
    ghost var b := buf[..];
    qr := UnQuoteInplace(buf, p, xs[k]);
    StringsKept(b, buf[..], p + |xs[k]| + 1, xs, k + 1);
    forall j | 0 <= j < k
      ensures OptionReady(buf[..], opts, xs, j)
    {
      assert OptionReady(b, opts, xs, j);
      SizesAdd(xs, j, k);
      ShorterUnquoted(xs[j]);
      TextKept(b, buf[..], opts[j], Unquoted(xs[j]));
    }
  }

  lemma {:induction false} SizesAdd(xs: seq<string>, j: nat, k: nat)
    requires j < k <= |xs|
    ensures Size(xs, j) >= |xs[j]| + 1 + Size(xs, k)
    decreases k - j
  {
    if j + 1 < k {
      SizesAdd(xs, j + 1, k);
    }
  }

  lemma ShorterUnquoted(t: string)
    ensures |Unquoted(t)| <= |t|
  {
  }

  /** One round of the loop: p goes to the start of the next original string. */
  method TakeOption(buff: array<char>, opts: array<int>, i: nat, start: nat, ghost xs: seq<string>) returns (p: nat)
    requires i < |xs| && i < opts.Length && HoldsStrings(buff[..], start, xs, i) && start == Start(xs, i)
    requires OptionsReady(buff[..], opts[..], xs, i)
    modifies buff, opts
    ensures p == Start(xs, i + 1) && HoldsStrings(buff[..], p, xs, i + 1)
    ensures OptionsReady(buff[..], opts[..], xs, i + 1)
  {
    p := start;
    var qr := UnQuoteString(buff, p, xs, i, opts[..]);
    ghost var before := opts[..];
    opts[i] := p;
    p := SkipText(buff, p, Unquoted(xs[i]));
    p := p + 1;
    p := p + qr;
    forall j | 0 <= j < i
      ensures OptionReady(buff[..], opts[..], xs, j)
    {
      assert OptionReady(buff[..], before, xs, j) && opts[..][j] == before[j];
    }
  }

  lemma {:induction false} EndIsNul(a: seq<char>, p: nat, xs: seq<string>, k: nat)
    requires k <= |xs| && HoldsStrings(a, p, xs, k) && p + Size(xs, k) < |a|
    ensures a[p + Size(xs, k)] == NUL
    decreases |xs| - k
  {
    if k < |xs| {
      EndIsNul(a, p + |xs[k]| + 1, xs, k + 1);
    }
  }

  /** AplCopyMemory of a whole multi-string with its final NUL. */
  method CopyAll(str: array<char>, buff: array<char>, n: nat, ghost xs: seq<string>)
    requires str != buff && HoldsStrings(str[..], 0, xs, 0)
    requires n == Size(xs, 0) + 1 == buff.Length && n <= str.Length
    modifies buff
    ensures HoldsStrings(buff[..], 0, xs, 0)
  {
    ghost var a := str[..];
    MoveCells(buff, 0, str, n);
    assert forall i {:trigger a[i]} :: 0 <= i < n ==> buff[..][i + 0] == a[i] == str[i];
    StringsCopied(a, buff[..], 0, 0, xs, 0);
    EndIsNul(a, 0, xs, 0);
    assert a[n - 1] == NUL;
    Closed(buff[..], 0, xs, 0);
  }

  /**
   * __apxMultiSzToJvmOptions: option i addresses the unquoted i-th string of the
   * original, although the walk runs over the buffer that is being compacted.
   * The slots from the string count on are left to the caller.
   */
  method MultiSzToJvmOptions(str: array?<char>, nExtra: nat) returns (n: nat, buff: array<char>, opts: array<int>)
    requires IsMultiSzPtr(str)
    ensures fresh(buff) && fresh(opts)
    ensures n == |StringsOf(str)| + nExtra && opts.Length == n + 1
    ensures buff.Length == Size(StringsOf(str), 0) + 1
    ensures OptionsReady(buff[..], opts[..], StringsOf(str), |StringsOf(str)|)
    ensures forall i :: 0 <= i < |StringsOf(str)| ==> HoldsText(buff[..], opts[..][i], Unquoted(StringsOf(str)[i]))
  {
    ghost var xs := StringsOf(str);
    var l;
    l, n := GetLength(str);
    var count := n;
    n := n + nExtra;
    buff := new char[l + 1](_ => NUL);
    opts := new int[n + 1](_ => 0);
    if str != null {
      CopyAll(str, buff, l + 1, xs);
    }
    var p := 0;
    for i := 0 to count
      invariant p == Start(xs, i) && HoldsStrings(buff[..], p, xs, i)
      invariant OptionsReady(buff[..], opts[..], xs, i)
    {
      p := TakeOption(buff, opts, i, p, xs);
    }
    ReadyMeans(buff[..], opts[..], xs);
  }
}
