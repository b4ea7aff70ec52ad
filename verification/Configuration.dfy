/**
 * What a packed option buffer decodes to, and loadConfiguration (prunsrv.c),
 * which layers the command line over the registry.
 */
module Configuration {
  import opened CStrings
  import opened MultiSz
  import opened OptionParser

  // ----- The strings of one value -----

  function FirstNul(t: string, k: nat): (n: nat)
    requires k <= |t|
    ensures k <= n <= |t| && (n < |t| ==> t[n] == NUL)
    ensures NUL !in t[k..n]
    decreases |t| - k
  {
    if k == |t| || t[k] == NUL then k
    else
      var n := FirstNul(t, k + 1);
      assert t[k..n] == [t[k]] + t[k + 1..n];
      n
  }

  /** The text from k on, cut at its separators. */
  function Pieces(t: string, k: nat): seq<string>
    requires k <= |t|
    decreases |t| - k
  {
    var n := FirstNul(t, k);
    if n == |t| then [t[k..n]] else [t[k..n]] + Pieces(t, n + 1)
  }

  ghost predicate NoneEmpty(xs: seq<string>) {
    forall i :: 0 <= i < |xs| ==> xs[i] != ""
  }

  /** No piece of the value is empty. */
  ghost predicate WellFormed(v: string) {
    NoneEmpty(Pieces(Cut(v, |v|), 0))
  }

  ghost function Items(v: string): (xs: seq<string>)
    ensures xs != []
  {
    Pieces(Cut(v, |v|), 0)
  }

  /** The pieces before the first empty one. */
  function Leading(xs: seq<string>): (r: seq<string>)
    ensures r <= xs
  {
    if xs == [] || xs[0] == "" then [] else [xs[0]] + Leading(xs[1..])
  }

  lemma {:induction false} LeadingIsAll(xs: seq<string>)
    ensures Leading(xs) == xs <==> NoneEmpty(xs)
  {
    if xs != [] {
      LeadingIsAll(xs[1..]);
      assert xs == [xs[0]] + xs[1..];
      assert NoneEmpty(xs) <==> xs[0] != "" && NoneEmpty(xs[1..]);
    }
  }

  /** A text with an empty piece holds what is in front of it as a closed multi-string. */
  lemma {:induction false} LeadingHeld(b: seq<char>, p: nat, t: string, k: nat)
    requires k <= |t| && p + |t| < |b| && b[p + |t|] == NUL
    requires forall i {:trigger b[i]} :: p <= i < p + |t| ==> b[i] == t[i - p]
    requires !NoneEmpty(Pieces(t, k))
    ensures HoldsStrings(b, p + k, Leading(Pieces(t, k)), 0)
    decreases |t| - k
  {
    var n := FirstNul(t, k);
    var x, ps := t[k..n], Pieces(t, k);
    if x == "" {
      assert b[p + k] == NUL;
    } else {
      TextHeld(b, p, t, k, n);
      assert ps == [x] + Pieces(t, n + 1);
      LeadingHeld(b, p, t, n + 1);
      OneInFront(b, p + k, x, Leading(Pieces(t, n + 1)));
    }
  }

  lemma {:induction false} PiecesHeld(b: seq<char>, p: nat, t: string, k: nat)
    requires k <= |t| && p + |t| < |b| && b[p + |t|] == NUL
    requires forall i {:trigger b[i]} :: p <= i < p + |t| ==> b[i] == t[i - p]
    requires NoneEmpty(Pieces(t, k))
    ensures HoldsCells(b, p + k, Pieces(t, k), 0) && Size(Pieces(t, k), 0) == |t| - k + 1
    decreases |t| - k
  {
    var n := FirstNul(t, k);
    var x, ps := t[k..n], Pieces(t, k);
    assert ps[0] == x;
    TextHeld(b, p, t, k, n);
    if n < |t| {
      var qs := Pieces(t, n + 1);
      assert ps == [x] + qs;
      assert NoneEmpty(qs) by {
        assert forall i :: 0 <= i < |qs| ==> qs[i] == ps[i + 1];
      }
      PiecesHeld(b, p, t, n + 1);
      CellsBehind(b, p + n + 1, [x], qs, 0);
    }
  }

  lemma TextHeld(b: seq<char>, p: nat, t: string, k: nat, n: nat)
    requires k <= n <= |t| && p + |t| < |b| && b[p + |t|] == NUL && (n < |t| ==> t[n] == NUL)
    requires forall i {:trigger b[i]} :: p <= i < p + |t| ==> b[i] == t[i - p]
    requires NUL !in t[k..n]
    ensures HoldsText(b, p + k, t[k..n])
  {
    if n < |t| {
      assert b[p + n] == t[p + n - p];
    }
  }

  lemma {:induction false} CellsBehind(a: seq<char>, p: int, xs: seq<string>, ys: seq<string>, k: nat)
    requires k <= |ys| && HoldsCells(a, p, ys, k)
    ensures HoldsCells(a, p, xs + ys, |xs| + k) && Size(xs + ys, |xs| + k) == Size(ys, k)
    decreases |ys| - k
  {
    if k < |ys| {
      CellsBehind(a, p + |ys[k]| + 1, xs, ys, k + 1);
    }
  }

  /** An apostrophe takes no cell, so its value is followed by more than one NUL. */
  lemma {:induction false} ApostropheLeavesRoom(v: string, k: nat)
    requires k <= |v|
    ensures |Cut(v, k)| == k <==> '\'' !in v[..k]
  {
    if k > 0 {
      assert v[..k] == v[..k - 1] + [v[k - 1]];
      ApostropheLeavesRoom(v, k - 1);
    }
  }

  // ----- The strings of all values -----

  /** The strings of every value from k on. */
  ghost function ItemsFrom(us: seq<Use>, k: nat): seq<string>
    requires k <= |us|
    decreases |us| - k
  {
    if k == |us| then [] else Items(us[k].val) + ItemsFrom(us, k + 1)
  }

  /** A value that is followed by the next one without a gap: no empty piece, no apostrophe. */
  ghost predicate Seamless(v: string) {
    WellFormed(v) && '\'' !in v
  }

  /** The same, but only as far as the first empty piece, and nothing behind a value with an apostrophe. */
  ghost function KeptFrom(us: seq<Use>, k: nat): seq<string>
    requires k <= |us|
    decreases |us| - k
  {
    if k == |us| then []
    else Leading(Items(us[k].val)) + if Seamless(us[k].val) then KeptFrom(us, k + 1) else []
  }

  /** Where the cells of value k start. */
  function Begin(us: seq<Use>, k: nat): nat
    requires k <= |us|
  {
    |AllPadded(us[..k])|
  }

  lemma BeginNext(us: seq<Use>, k: nat)
    requires k < |us|
    ensures AllPadded(us[..k + 1]) == AllPadded(us[..k]) + Padded(us[k].val)
    ensures Begin(us, k + 1) == Begin(us, k) + |us[k].val| + 1
  {
    assert us[..k + 1] == us[..k] + [us[k]];
    PaddedGrows(us[..k], us[k]);
  }

  lemma {:induction false} PaddedInPlace(us: seq<Use>, k: nat)
    requires k <= |us|
    ensures AllPadded(us[..k]) <= AllPadded(us)
    decreases |us| - k
  {
    if k == |us| {
      assert us[..k] == us;
    } else {
      PaddedInPlace(us, k + 1);
      BeginNext(us, k);
    }
  }

  lemma FrontOf(b: string, us: seq<Use>, k: nat)
    requires b == AllPadded(us) + [NUL] && k <= |us|
    ensures AllPadded(us[..k]) <= b && Begin(us, k) < |b|
  {
    PaddedInPlace(us, k);
  }

  /** The cells of one value in the buffer: what it is cut into, and NULs. */
  lemma ValueCells(b: seq<char>, us: seq<Use>, k: nat)
    requires b == AllPadded(us) + [NUL] && k < |us|
    ensures Begin(us, k + 1) == Begin(us, k) + |us[k].val| + 1 < |b|
    ensures
      var p, t := Begin(us, k), Cut(us[k].val, |us[k].val|);
      && (forall i {:trigger b[i]} :: p <= i < p + |t| ==> b[i] == t[i - p])
      && (forall i {:trigger b[i]} :: p + |t| <= i < Begin(us, k + 1) ==> b[i] == NUL)
  {
    var a, w := AllPadded(us[..k]), AllPadded(us[..k + 1]);
    FrontOf(b, us, k + 1);
    BeginNext(us, k);
    Placed(b, w, a, us[k].val);
  }

  lemma Placed(b: string, w: string, a: string, v: string)
    requires w <= b && w == a + Padded(v)
    ensures forall i {:trigger b[i]} :: |a| <= i < |a| + |Cut(v, |v|)| ==> b[i] == Cut(v, |v|)[i - |a|]
    ensures forall i {:trigger b[i]} :: |a| + |Cut(v, |v|)| <= i < |w| ==> b[i] == NUL
  {
    assert forall i {:trigger b[i]} :: |a| <= i < |w| ==> b[i] == w[i] == Padded(v)[i - |a|];
  }

  lemma ItemsHeld(b: seq<char>, p: nat, v: string)
    requires WellFormed(v)
    requires p + |Cut(v, |v|)| < |b| && b[p + |Cut(v, |v|)|] == NUL
    requires forall i {:trigger b[i]} :: p <= i < p + |Cut(v, |v|)| ==> b[i] == Cut(v, |v|)[i - p]
    ensures HoldsCells(b, p, Items(v), 0) && Size(Items(v), 0) == |Cut(v, |v|)| + 1
  {
    PiecesHeld(b, p, Cut(v, |v|), 0);
  }

  lemma LeadingItemsHeld(b: seq<char>, p: nat, v: string)
    requires !WellFormed(v)
    requires p + |Cut(v, |v|)| < |b| && b[p + |Cut(v, |v|)|] == NUL
    requires forall i {:trigger b[i]} :: p <= i < p + |Cut(v, |v|)| ==> b[i] == Cut(v, |v|)[i - p]
    ensures HoldsStrings(b, p, Leading(Items(v)), 0)
  {
    LeadingHeld(b, p, Cut(v, |v|), 0);
  }

  /** Behind the strings of a value there is another NUL if there was an apostrophe. */
  lemma RoomBehind(b: seq<char>, us: seq<Use>, k: nat, e: nat)
    requires b == AllPadded(us) + [NUL] && k < |us|
    requires e == Begin(us, k) + |Cut(us[k].val, |us[k].val|)| + 1
    ensures e < |b| && if '\'' in us[k].val then b[e] == NUL else e == Begin(us, k + 1)
  {
    var v := us[k].val;
    ValueCells(b, us, k);
    ApostropheLeavesRoom(v, |v|);
    assert v[..|v|] == v;
  }

  lemma ValueHeld(b: seq<char>, us: seq<Use>, k: nat) returns (q: nat)
    requires b == AllPadded(us) + [NUL] && k < |us| && WellFormed(us[k].val)
    ensures HoldsCells(b, Begin(us, k), Items(us[k].val), 0)
    ensures q == Begin(us, k) + Size(Items(us[k].val), 0) < |b|
    ensures if '\'' in us[k].val then b[q] == NUL else q == Begin(us, k + 1)
  {
    var p, v := Begin(us, k), us[k].val;
    q := p + |Cut(v, |v|)| + 1;
    RoomBehind(b, us, k, q);
    ValueCells(b, us, k);
    ItemsHeld(b, p, v);
  }

  /** The strings of the value at k, with what is kept of the values behind it. */
  lemma KeptOne(b: seq<char>, us: seq<Use>, k: nat, p: nat, q: nat)
    requires k < |us| && WellFormed(us[k].val)
    requires HoldsCells(b, p, Items(us[k].val), 0) && q == p + Size(Items(us[k].val), 0) < |b|
    requires if '\'' in us[k].val then b[q] == NUL else HoldsStrings(b, q, KeptFrom(us, k + 1), 0)
    ensures HoldsStrings(b, p, KeptFrom(us, k), 0)
  {
    var xs := Items(us[k].val);
    LeadingIsAll(xs);
    if '\'' in us[k].val {
      Closed(b, p, xs, 0);
      assert xs + [] == xs;
    } else {
      Joined(b, p, xs, 0, KeptFrom(us, k + 1));
    }
  }

  /** A value with an empty piece: what is in front of it is all that is kept from here on. */
  lemma KeptLast(b: seq<char>, us: seq<Use>, k: nat)
    requires b == AllPadded(us) + [NUL] && k < |us| && !WellFormed(us[k].val)
    ensures HoldsStrings(b, Begin(us, k), KeptFrom(us, k), 0)
  {
    ValueCells(b, us, k);
    LeadingItemsHeld(b, Begin(us, k), us[k].val);
    NothingMore(us, k);
  }

  lemma NothingMore(us: seq<Use>, k: nat)
    requires k < |us| && !Seamless(us[k].val)
    ensures KeptFrom(us, k) == Leading(Items(us[k].val))
  {
  }

  /** Whatever the values are, the buffer decodes to what is kept of them. */
  lemma {:induction false} KeptIsHeld(b: seq<char>, us: seq<Use>, k: nat)
    requires b == AllPadded(us) + [NUL] && k <= |us|
    ensures HoldsStrings(b, Begin(us, k), KeptFrom(us, k), 0)
    decreases |us| - k
  {
    if k == |us| {
      assert us[..k] == us;
    } else if !WellFormed(us[k].val) {
      KeptLast(b, us, k);
    } else {
      var q := ValueHeld(b, us, k);
      if '\'' !in us[k].val {
        KeptIsHeld(b, us, k + 1);
      }
      KeptOne(b, us, k, Begin(us, k), q);
    }
  }

  /** No value from k on has an empty piece, and none but the last holds an apostrophe. */
  ghost predicate AllSeamless(us: seq<Use>, k: nat) {
    && (forall i :: k <= i < |us| ==> WellFormed(us[i].val))
    && (forall i :: k <= i < |us| - 1 ==> '\'' !in us[i].val)
  }

  lemma SeamlessNext(us: seq<Use>, k: nat)
    requires k < |us|
    ensures AllSeamless(us, k) <==>
      WellFormed(us[k].val) && (k + 1 == |us| || ('\'' !in us[k].val && AllSeamless(us, k + 1)))
  {
  }

  lemma {:induction false} KeptAll(us: seq<Use>, k: nat)
    requires k <= |us| && AllSeamless(us, k)
    ensures KeptFrom(us, k) == ItemsFrom(us, k)
    decreases |us| - k
  {
    if k < |us| {
      SeamlessNext(us, k);
      LeadingIsAll(Items(us[k].val));
      if k + 1 < |us| {
        KeptAll(us, k + 1);
      }
    }
  }

  lemma LeadingIsShorter(xs: seq<string>)
    ensures |Leading(xs)| <= |xs| && (!NoneEmpty(xs) ==> |Leading(xs)| < |xs|)
  {
    LeadingIsAll(xs);
    if |Leading(xs)| == |xs| {
      assert Leading(xs) == xs[..|xs|] == xs;
    }
  }

  lemma {:induction false} KeptFewer(us: seq<Use>, k: nat)
    requires k <= |us|
    ensures |KeptFrom(us, k)| <= |ItemsFrom(us, k)|
    ensures !AllSeamless(us, k) ==> |KeptFrom(us, k)| < |ItemsFrom(us, k)|
    decreases |us| - k
  {
    if k < |us| {
      SeamlessNext(us, k);
      LeadingIsShorter(Items(us[k].val));
      KeptFewer(us, k + 1);
    }
  }

  /**
   * Values given one after the other to a multi-string option come back out of
   * its buffer as far as they are kept. All of them come back if and only if no
   * value has an empty piece and none but the last holds an apostrophe: the cells
   * an apostrophe leaves free end the multi-string early.
   */
  lemma AllValuesSurviveIff(b: seq<char>, us: seq<Use>)
    requires us != [] && b == AllPadded(us) + [NUL]
    ensures IsMultiSz(b, 0) && Strings(b, 0) == KeptFrom(us, 0)
    ensures Strings(b, 0) == ItemsFrom(us, 0) <==> AllSeamless(us, 0)
  {
    KeptIsHeld(b, us, 0);
    HoldsMeansStrings(b, 0, KeptFrom(us, 0), 0);
    KeptFewer(us, 0);
    if AllSeamless(us, 0) {
      KeptAll(us, 0);
    }
  }

  /** A value in apostrophes in front of another: not all comes back. */
  lemma ApostropheInFront(b: seq<char>, us: seq<Use>)
    requires us == [Use(false, "'a'"), Use(false, "b")] && b == AllPadded(us) + [NUL]
    ensures IsMultiSz(b, 0) && Strings(b, 0) != ItemsFrom(us, 0)
  {
    AllValuesSurviveIff(b, us);
    assert us[0].val[0] == '\'';
  }

  // ----- The command line over the registry -----

  /** What the registry holds for one option. */
  datatype Stored = Stored(text: TextPtr, number: nat, cells: array?<char>, bytes: nat)

  /** The strings given on the command line. */
  function GivenStrings(us: seq<Use>): seq<string>
    requires us != []
  {
    CellsAreMultiSz(us);
    Strings(AllPadded(Effective(us)) + [NUL], 0)
  }

  lemma CellsAreMultiSz(us: seq<Use>)
    requires us != []
    ensures Effective(us) != []
    ensures IsMultiSz(AllPadded(Effective(us)) + [NUL], 0)
  {
    AllValuesSurviveIff(AllPadded(Effective(us)) + [NUL], Effective(us));
  }

  /** What other code supplies: reading a number, and replacing the environment variables in a text. */
  datatype Env = Env(atoul: string -> nat, expand: CText -> CText)

  /** A text from the registry, expanded if the option asks for it. */
  function FromRegistry(o: CmdOption, text: TextPtr, env: Env): TextPtr {
    if text.Text? && o.expands then Text(env.expand(text.text)) else text
  }

  /** An option after the layering: registry alone, registry and command line, or command line alone. */
  ghost predicate Configured(o: CmdOption, us: seq<Use>, env: Env, st: Stored)
    reads o, o.cells, st.cells
  {
    match o.kind
    case Str => o.text == if us == [] then FromRegistry(o, st.text, env) else Text(us[|us| - 1].val)
    case Int => o.value == if us == [] then st.number else env.atoul(us[|us| - 1].val)
    case Msz =>
      && IsMultiSzPtr(o.cells) && IsMultiSzPtr(st.cells)
      && StringsOf(o.cells) ==
         (if us == [] then StringsOf(st.cells)
         else if AllAdd(us) then StringsOf(st.cells) + GivenStrings(us)
         else GivenStrings(us))
      && (us == [] ==> o.cells == st.cells && o.value == st.bytes)
      && (us != [] ==> o.cells != null && o.value == o.cells.Length * WCHAR_SIZE)
    case _ => true
  }

  /** The three layers, written out for each kind of option. */
  lemma ConfiguredMeans(o: CmdOption, us: seq<Use>, env: Env, st: Stored)
    requires Configured(o, us, env, st)
    ensures o.kind == Str && us == [] && o.expands && st.text.Text? ==> o.text == Text(env.expand(st.text.text))
    ensures o.kind == Str && us == [] && !(o.expands && st.text.Text?) ==> o.text == st.text
    ensures o.kind == Str && us != [] ==> o.text == Text(us[|us| - 1].val)
    ensures o.kind == Int && us == [] ==> o.value == st.number
    ensures o.kind == Int && us != [] ==> o.value == env.atoul(us[|us| - 1].val)
    ensures o.kind == Msz && us == [] ==> o.cells == st.cells && o.value == st.bytes
    ensures o.kind == Msz && us != [] ==>
      && o.cells != null && o.value == 2 * o.cells.Length && IsMultiSz(o.cells[..], 0) && IsMultiSzPtr(st.cells)
      && Strings(o.cells[..], 0) ==
         (if forall i :: 0 <= i < |us| ==> us[i].add then StringsOf(st.cells) else []) + GivenStrings(us)
  {
  }

  lemma LastCounts(us: seq<Use>)
    ensures Effective(us) == [] <==> us == []
    ensures us != [] ==> Effective(us)[|Effective(us)| - 1] == us[|us| - 1]
  {
  }

  /** The option takes the registry's value. */
  method TakeStored(o: CmdOption, st: Stored, env: Env)
    requires IsMultiSzPtr(st.cells)
    modifies o`text, o`value, o`cells
    ensures Configured(o, [], env, st)
    ensures o.kind == Str ==>
      if o.expands && st.text.Text? then o.text == Text(env.expand(st.text.text)) else o.text == st.text
    ensures o.kind == Int ==> o.value == st.number
    ensures o.kind == Msz ==> o.cells == st.cells && o.value == st.bytes
  {
    if o.kind == Str {
      o.text := st.text;
      if o.text.Text? && o.expands {
        o.text := Text(env.expand(o.text.text));
      }
    } else if o.kind == Int {
      o.value := st.number;
    } else if o.kind == Msz {
      o.cells, o.value := st.cells, st.bytes;
    }
  }

  /** The registry's strings go in front of the option's own. */
  method PutStoredFirst(o: CmdOption, st: Stored)
    requires o.cells != null && IsMultiSzPtr(o.cells) && IsMultiSzPtr(st.cells)
    modifies o`value, o`cells
    ensures o.cells != null && IsMultiSzPtr(o.cells)
    ensures StringsOf(o.cells) == StringsOf(st.cells) + old(StringsOf(o.cells))
    ensures o.value == o.cells.Length * WCHAR_SIZE
  {
    var cv := o.cells;
    var ov := st.cells;
    o.cells, o.value := Combine(ov, cv);
  }

  /** One round of loadConfiguration. */
  method LoadOption(o: CmdOption, st: Stored, ghost us: seq<Use>, ghost initial: nat, env: Env)
    requires o.Reflects(us, initial, env.atoul) && IsMultiSzPtr(st.cells)
    modifies o`text, o`value, o`cells
    ensures Configured(o, us, env, st)
  {
    if !o.found {
      TakeStored(o, st, env);
    } else {
      LastCounts(us);
      if o.kind == Msz {
        GivenIsHeld(o, us, initial, env);
        if o.add {
          PutStoredFirst(o, st);
        }
      }
    }
  }

  lemma GivenIsHeld(o: CmdOption, us: seq<Use>, initial: nat, env: Env)
    requires o.Reflects(us, initial, env.atoul) && o.kind == Msz && us != []
    ensures o.cells != null && IsMultiSz(o.cells[..], 0) && StringsOf(o.cells) == GivenStrings(us)
    ensures o.value == o.cells.Length * WCHAR_SIZE
  {
    var es := Effective(us);
    CellsAreMultiSz(us);
    assert es == es[..|es| - 1] + [es[|es| - 1]];
    PaddedGrows(es[..|es| - 1], es[|es| - 1]);
  }

  /** The options before i are layered, the others are as the command line left them. */
  ghost predicate LoadedTo(i: nat, options: seq<CmdOption>, stored: seq<Stored>, gs: seq<Given>, initial: seq<nat>,
                           env: Env)
    requires i <= |options| == |stored| == |initial|
    reads options, set o | o in options :: o.cells, set st | st in stored :: st.cells
  {
    && (forall l :: 0 <= l < |stored| ==> IsMultiSzPtr(stored[l].cells))
    && (forall l :: 0 <= l < i ==> Configured(options[l], UsesOf(gs, l), env, stored[l]))
    && (forall l :: i <= l < |options| ==> options[l].Reflects(UsesOf(gs, l), initial[l], env.atoul))
  }

  method LoadAt(i: nat, options: seq<CmdOption>, stored: seq<Stored>, ghost gs: seq<Given>, ghost initial: seq<nat>,
                env: Env)
    requires i < |options| == |stored| == |initial| && Distinct(options)
    requires LoadedTo(i, options, stored, gs, initial, env)
    modifies options[i]
    ensures LoadedTo(i + 1, options, stored, gs, initial, env)
  {
    assert options[i].Reflects(UsesOf(gs, i), initial[i], env.atoul);
    LoadOption(options[i], stored[i], UsesOf(gs, i), initial[i], env);
    forall l | 0 <= l < i
      ensures Configured(options[l], UsesOf(gs, l), env, stored[l])
    {
      assert options[l] != options[i];
    }
  }

  /** loadConfiguration: every option of the table is layered over what the registry holds for it. */
  method Load(options: seq<CmdOption>, stored: seq<Stored>, ghost gs: seq<Given>, ghost initial: seq<nat>, env: Env)
    requires Distinct(options) && |stored| == |options| == |initial|
    requires TableReflects(options, gs, initial, env.atoul)
    requires forall l :: 0 <= l < |stored| ==> IsMultiSzPtr(stored[l].cells)
    modifies options
    ensures forall l :: 0 <= l < |options| ==> Configured(options[l], UsesOf(gs, l), env, stored[l])
  {
    for i := 0 to |options|
      invariant LoadedTo(i, options, stored, gs, initial, env)
    {
      LoadAt(i, options, stored, gs, initial, env);
    }
  }

  /**
   * Reading the arguments and then loading: for every accepted list, an option
   * that never occurs has the registry's value, one that only occurs with ++ has
   * the registry's strings followed by its own, any other has its own.
   */
  method ParseAndLoad(argv: seq<CText>, s: nat, options: seq<CmdOption>, env: Env, stored: seq<Stored>,
                      ghost initial: seq<nat>)
      returns (ok: bool)
    requires Distinct(options) && |stored| == |options| == |initial|
    requires TableReflects(options, [], initial, env.atoul)
    requires forall l :: 0 <= l < |stored| ==> IsMultiSzPtr(stored[l].cells)
    modifies options
    ensures ok <==> Scan(argv, s, Names(options)).Accepted?
    ensures ok ==> forall l :: 0 <= l < |options| ==>
      Configured(options[l], UsesOf(Scan(argv, s, Names(options)).uses, l), env, stored[l])
  {
    ghost var gs := match Scan(argv, s, Names(options)) case Accepted(us, _) => us case _ => [];
    var rest;
    ok, rest := Parse(argv, s, options, env.atoul, initial);
    if ok {
      Load(options, stored, gs, initial, env);
    }
  }

  /** No separator, apostrophe or NUL. */
  ghost predicate Plain(v: string) {
    '#' !in v && ';' !in v && '\'' !in v && '\0' !in v
  }

  /** A plain value is one string. */
  lemma PlainItem(v: string)
    requires Plain(v)
    ensures Items(v) == [v]
  {
    CutIs(v, v);
  }

  /** A value in double quotes is one string, whatever separators it has. */
  lemma QuotedItem(v: string)
    requires |v| >= 2 && v[0] == '"' && v[|v| - 1] == '"' && '"' !in v[1..|v| - 1]
    requires '\'' !in v && '\0' !in v
    ensures Items(v) == [v]
  {
    forall i | 1 <= i < |v|
      ensures multiset(v[..i])['"'] == 1
    {
      assert v[..i] == ['"'] + v[1..i] && v[1..i] == v[1..|v| - 1][..i - 1];
    }
    CutIs(v, v);
  }

  /** A separator outside of double quotes makes two strings. */
  lemma TwoItems(v: string, m: nat)
    requires m < |v| && (v[m] == '#' || v[m] == ';')
    requires Plain(v[..m]) && Plain(v[m + 1..]) && '"' !in v[..m] && '"' !in v[m + 1..]
    ensures Items(v) == [v[..m], v[m + 1..]]
  {
    var t := v[m := NUL];
    assert forall i :: 0 <= i < m ==> v[i] == v[..m][i];
    assert forall i :: m < i < |v| ==> v[i] == v[m + 1..][i - m - 1];
    CutIs(v, t);
    assert t[..m] == v[..m] && t[m + 1..] == v[m + 1..];
    NoNulAround(t, m);
  }

  /** What a value without apostrophes is cut into, and its strings if there is no NUL. */
  lemma CutIs(v: string, t: string)
    requires '\'' !in v && |t| == |v|
    requires forall i :: 0 <= i < |v| ==>
      t[i] == if (v[i] == '#' || v[i] == ';') && multiset(v[..i])['"'] % 2 == 0 then NUL else v[i]
    ensures Cut(v, |v|) == t
    ensures NUL !in t ==> FirstNul(t, 0) == |t| && Items(v) == [t]
  {
    forall i | 0 <= i < |v|
      ensures |Cut(v, |v|)| == |v| && Cut(v, |v|)[i] == t[i]
    {
      CutWithoutApostrophes(v, i);
    }
    assert v == "" ==> Cut(v, 0) == "";
    assert NUL !in t ==> FirstNul(t, 0) == |t| && t[0..|t|] == t;
  }

  lemma NoNulAround(t: string, m: nat)
    requires m < |t| && t[m] == NUL && NUL !in t[..m] && NUL !in t[m + 1..]
    ensures Pieces(t, 0) == [t[..m], t[m + 1..]]
  {
    FirstIs(t, 0, m);
    FirstIs(t, m + 1, |t|);
    assert t[0..m] == t[..m] && t[m + 1..|t|] == t[m + 1..];
  }

  lemma {:induction false} FirstIs(t: string, k: nat, m: nat)
    requires k <= m <= |t| && NUL !in t[k..m] && (m < |t| ==> t[m] == NUL)
    ensures FirstNul(t, k) == m
    decreases m - k
  {
    if k < m {
      assert t[k..m][0] == t[k] && t[k..m][1..] == t[k + 1..m];
      FirstIs(t, k + 1, m);
    }
  }

  /** Plain values come back one string each. */
  lemma PlainValuesSurvive(us: seq<Use>)
    requires us != [] && PlainFrom(us, 0)
    ensures GivenStrings(us) == Values(Effective(us))
  {
    var es := Effective(us);
    assert PlainFrom(es, 0) by {
      assert forall i :: 0 <= i < |es| ==> es[i] == us[FirstSet(us) + i];
    }
    PlainItems(es, 0);
    GivenAreKept(us);
  }

  /** Values from k on that are plain and not empty. */
  ghost predicate PlainFrom(us: seq<Use>, k: nat) {
    forall i :: k <= i < |us| ==> us[i].val != "" && Plain(us[i].val)
  }

  function Values(us: seq<Use>): seq<string> {
    seq(|us|, i requires 0 <= i < |us| => us[i].val)
  }

  lemma {:induction false} PlainItems(es: seq<Use>, k: nat)
    requires k <= |es| && PlainFrom(es, k)
    ensures AllSeamless(es, k) && ItemsFrom(es, k) == Values(es)[k..]
    decreases |es| - k
  {
    if k < |es| {
      PlainItems(es, k + 1);
      PlainNext(es, k);
      assert Values(es)[k..] == [es[k].val] + Values(es)[k + 1..];
    }
  }

  lemma PlainNext(es: seq<Use>, k: nat)
    requires k < |es| && PlainFrom(es, k) && AllSeamless(es, k + 1)
    ensures AllSeamless(es, k) && ItemsFrom(es, k) == [es[k].val] + ItemsFrom(es, k + 1)
  {
    PlainItem(es[k].val);
    SeamlessNext(es, k);
  }

  /** The strings given are those of the values that count, in the same cases. */
  lemma GivenAreKept(us: seq<Use>)
    requires us != []
    ensures GivenStrings(us) == KeptFrom(Effective(us), 0)
    ensures GivenStrings(us) == ItemsFrom(Effective(us), 0) <==> AllSeamless(Effective(us), 0)
  {
    CellsAreMultiSz(us);
    AllValuesSurviveIff(AllPadded(Effective(us)) + [NUL], Effective(us));
  }
}
