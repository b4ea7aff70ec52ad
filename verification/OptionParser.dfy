/** The option loop of apxCmdlineParse (cmdline.c). */
module OptionParser {
  import opened CStrings
  import opened MultiSz

  datatype Kind = Nil | Int | Str | Msz | Bin

  /** A text pointer that may be null. */
  datatype TextPtr = NoText | Text(text: CText)

  /** One time an option is given: with ++ or with --, and the value given. */
  datatype Use = Use(add: bool, val: CText)

  // ----- What a value means to a multi-string option -----

  /** An odd number of q among the first k characters. */
  function Inside(v: string, q: char, k: nat): bool
    requires k <= |v|
  {
    k > 0 && Inside(v, q, k - 1) != (v[k - 1] == q)
  }

  /**
   * The first k characters with the apostrophes taken out, and with every '#'
   * and ';' that stands outside both kinds of quotes turned into a separator.
   */
  function Cut(v: string, k: nat): (r: string)
    requires k <= |v|
    ensures |r| <= k
  {
    if k == 0 then ""
    else
      var r, c := Cut(v, k - 1), v[k - 1];
      if c == '\'' then r
      else if (c == '#' || c == ';') && !Inside(v, '\'', k - 1) && !Inside(v, '"', k - 1) then r + [NUL]
      else r + [c]
  }

  // What the two come to, character by character.

  lemma OneMoreCharacter(v: string, q: char, k: nat)
    requires 0 < k <= |v|
    ensures multiset(v[..k])[q] == multiset(v[..k - 1])[q] + if v[k - 1] == q then 1 else 0
  {
    assert v[..k] == v[..k - 1] + [v[k - 1]];
  }

  lemma {:induction false} InsideIsOdd(v: string, q: char, k: nat)
    requires k <= |v|
    ensures Inside(v, q, k) <==> multiset(v[..k])[q] % 2 == 1
  {
    if k > 0 {
      InsideIsOdd(v, q, k - 1);
      OneMoreCharacter(v, q, k);
    }
  }

  /**
   * Every character but the apostrophes is kept, as many cells further to the
   * front as there are apostrophes before it. A '#' or ';' with an even number of
   * each kind of quote in front of it becomes a NUL.
   */
  lemma {:induction false} CutAt(v: string, k: nat, i: nat)
    requires i < k <= |v| && v[i] != '\''
    ensures |Cut(v, k)| == k - multiset(v[..k])['\'']
    ensures
      var at := i - multiset(v[..i])['\''];
      && 0 <= at < |Cut(v, k)|
      && Cut(v, k)[at] ==
         if (v[i] == '#' || v[i] == ';') && multiset(v[..i])['\''] % 2 == 0 && multiset(v[..i])['"'] % 2 == 0 then '\0'
         else v[i]
    decreases k
  {
    CutLength(v, k);
    CutLength(v, i);
    if i < k - 1 {
      CutAt(v, k - 1, i);
    } else {
      InsideIsOdd(v, '\'', i);
      InsideIsOdd(v, '"', i);
    }
  }

  lemma {:induction false} CutLength(v: string, k: nat)
    requires k <= |v|
    ensures |Cut(v, k)| == k - multiset(v[..k])['\'']
  {
    if k > 0 {
      CutLength(v, k - 1);
      OneMoreCharacter(v, '\'', k);
    }
  }

  /** Without apostrophes every character stays where it is, or becomes a NUL there. */
  lemma CutWithoutApostrophes(v: string, i: nat)
    requires '\'' !in v && i < |v|
    ensures |Cut(v, |v|)| == |v|
    ensures Cut(v, |v|)[i] ==
      if (v[i] == '#' || v[i] == ';') && multiset(v[..i])['"'] % 2 == 0 then '\0' else v[i]
  {
    assert v[..|v|] == v && '\'' !in v[..i] && v[i] in v;
    CutAt(v, |v|, i);
  }

  function Nuls(n: nat): (r: string)
    ensures |r| == n && forall i :: 0 <= i < n ==> r[i] == NUL
  {
    seq(n, _ => NUL)
  }

  /** The cells a value takes: what it is cut into, filled up to one cell more than the value. */
  function Padded(v: string): (r: string)
    ensures |r| == |v| + 1
  {
    Cut(v, |v|) + Nuls(|v| + 1 - |Cut(v, |v|)|)
  }

  lemma PaddedAt(v: string, i: nat)
    requires i <= |v|
    ensures |Padded(v)| == |v| + 1 && Padded(v)[i] == if i < |Cut(v, |v|)| then Cut(v, |v|)[i] else '\0'
  {
  }

  function AllPadded(us: seq<Use>): string {
    if us == [] then "" else AllPadded(us[..|us| - 1]) + Padded(us[|us| - 1].val)
  }

  // ----- Which uses of an option count -----

  ghost predicate AllAdd(us: seq<Use>) {
    forall i :: 0 <= i < |us| ==> us[i].add
  }

  /** The first use spelled with --, or 0 if there is none. */
  function FirstSet(us: seq<Use>): (n: nat)
    ensures n <= |us|
    ensures AllAdd(us) ==> n == 0
    ensures !AllAdd(us) ==> n < |us| && !us[n].add && forall i :: 0 <= i < n ==> us[i].add
  {
    if us == [] then 0
    else
      var last := |us| - 1;
      var n := FirstSet(us[..last]);
      assert forall i :: 0 <= i < last ==> us[i] == us[..last][i];
      if n < last && !us[n].add then n else if us[last].add then 0 else last
  }

  /** From the first -- on, or all of them if none was --. */
  function Effective(us: seq<Use>): seq<Use> {
    us[FirstSet(us)..]
  }

  /** All uses count if all are spelled with ++; otherwise those from the first -- on. */
  lemma EffectiveIs(us: seq<Use>, n: nat)
    requires n < |us| && !us[n].add && forall i :: 0 <= i < n ==> us[i].add
    ensures Effective(us) == us[n..]
  {
    var m := FirstSet(us);
    assert m == n;
  }

  lemma AllCount(us: seq<Use>)
    requires forall i :: 0 <= i < |us| ==> us[i].add
    ensures Effective(us) == us
  {
    assert AllAdd(us);
  }

  lemma EffectiveGrows(us: seq<Use>, u: Use)
    ensures AllAdd(us) && !u.add ==> Effective(us + [u]) == [u]
    ensures !(AllAdd(us) && !u.add) ==> Effective(us + [u]) == Effective(us) + [u]
  {
    var all := us + [u];
    assert all[..|us|] == us && all[|us|] == u;
    assert AllAdd(all) <==> AllAdd(us) && u.add;
    assert all[FirstSet(all)..] == if AllAdd(us) && !u.add then [u] else us[FirstSet(us)..] + [u];
  }

  lemma EffectiveNext(us: seq<Use>, u: Use, discard: bool)
    requires discard <==> us != [] && AllAdd(us) && !u.add
    ensures Effective(us + [u]) == (if discard then [] else Effective(us)) + [u]
  {
    EffectiveGrows(us, u);
    assert [] + [u] == [u];
  }

  lemma AllAddGrows(us: seq<Use>, u: Use)
    ensures AllAdd(us + [u]) <==> AllAdd(us) && u.add
  {
    var all := us + [u];
    assert all[..|us|] == us && all[|us|] == u;
    assert forall i :: 0 <= i < |us| ==> all[i] == us[i];
  }

  lemma PaddedGrows(us: seq<Use>, u: Use)
    ensures AllPadded(us + [u]) == AllPadded(us) + Padded(u.val)
    ensures AllPadded(us + [u]) != ""
    ensures us != [] ==> AllPadded(us) != ""
  {
    assert (us + [u])[..|us|] == us;
  }

  // ----- The option table -----

  /** The value fields of an option: szValue as text or as the cells it addresses, and dwValue. */
  datatype Fields = Fields(text: TextPtr, packed: CellsPtr, value: nat)
  datatype CellsPtr = NoCells | Cells(content: string)

  /** What the fields hold after the uses that count; initial is the number before them. */
  function Expected(kind: Kind, es: seq<Use>, initial: nat, atoul: string -> nat): Fields {
    if es == [] then Fields(NoText, NoCells, if kind == Int then initial else 0)
    else
      var last := es[|es| - 1].val;
      match kind
      case Str => Fields(Text(last), NoCells, 0)
      case Int => Fields(NoText, NoCells, atoul(last))
      case Msz => PackedFields(AllPadded(es))
      case _ => Fields(NoText, NoCells, 0)
  }

  /** The fields of a multi-string option: the cells w, one NUL behind them, and their size in bytes. */
  function PackedFields(w: string): Fields {
    if w == "" then Fields(NoText, NoCells, 0) else Fields(NoText, Cells(w + [NUL]), (|w| + 1) * WCHAR_SIZE)
  }

  lemma ExpectedNext(kind: Kind, es: seq<Use>, u: Use, initial: nat, before: nat, atoul: string -> nat)
    ensures Expected(kind, es + [u], initial, atoul) ==
      match kind
      case Str => Fields(Text(u.val), NoCells, 0)
      case Int => Fields(NoText, NoCells, atoul(u.val))
      case Msz => PackedFields(AllPadded(es) + Padded(u.val))
      case _ => Fields(NoText, NoCells, 0)
    ensures kind == Msz ==> Expected(kind, es, before, atoul) == PackedFields(AllPadded(es))
  {
    PaddedGrows(es, u);
  }

  lemma SomeCells(es: seq<Use>)
    requires es != []
    ensures AllPadded(es) != ""
  {
    PaddedGrows(es[..|es| - 1], es[|es| - 1]);
    assert es == es[..|es| - 1] + [es[|es| - 1]];
  }

  lemma ExpectedMeans(kind: Kind, us: seq<Use>, initial: nat, atoul: string -> nat)
    ensures
      var f := Expected(kind, Effective(us), initial, atoul);
      if us == [] then f.text == NoText && f.packed == NoCells && (kind == Int ==> f.value == initial)
      else
        var last := us[|us| - 1].val;
        && (kind == Str ==> f.text == Text(last))
        && (kind == Int ==> f.value == atoul(last))
        && (kind == Msz ==>
              var w := AllPadded(Effective(us)) + ['\0'];
              f.packed == Cells(w) && f.value == 2 * |w|)
  {
    var es := Effective(us);
    if us != [] {
      assert es != [] && es[|es| - 1] == us[|us| - 1];
      SomeCells(es);
    }
  }

  class CmdOption {
    const name: CText
    const kind: Kind
    /** Environment variables in a text from the registry are replaced. */
    const expands: bool
    var found: bool
    var add: bool
    /** szValue of a string option. */
    var text: TextPtr
    /** szValue of a multi-string option. */
    var cells: array?<char>
    /** dwValue: the number, or the size of the cells in bytes. */
    var value: nat

    constructor (name: CText, kind: Kind, expands: bool, value: nat)
      requires kind != Int ==> value == 0
      ensures this.name == name && this.kind == kind && this.expands == expands && this.value == value
      ensures forall atoul :: Reflects([], value, atoul)
    {
      this.name, this.kind, this.expands, this.value := name, kind, expands, value;
      found, add, text, cells := false, false, NoText, null;
    }

    /** The flags after these uses: given at all, and only ever with ++. */
    ghost predicate Flagged(us: seq<Use>)
      reads this`found, this`add
    {
      (found <==> us != []) && (add <==> us != [] && AllAdd(us))
    }

    ghost function View(): Fields
      reads this`text, this`cells, this`value, cells
    {
      Fields(text, if cells == null then NoCells else Cells(cells[..]), value)
    }

    /** The option's fields say what these uses, in this order, mean. */
    ghost predicate Reflects(us: seq<Use>, initial: nat, atoul: string -> nat)
      reads this, cells
    {
      Flagged(us) && View() == Expected(kind, Effective(us), initial, atoul)
    }

    /** What the fields of an option are, kind by kind, once it has been used. */
    lemma ReflectsMeans(us: seq<Use>, initial: nat, atoul: string -> nat)
      requires Reflects(us, initial, atoul)
      ensures (found <==> us != []) && (add <==> us != [] && forall i :: 0 <= i < |us| ==> us[i].add)
      ensures us == [] ==> text == NoText && cells == null && (kind == Int ==> value == initial)
      ensures us != [] && kind == Str ==> text == Text(us[|us| - 1].val)
      ensures us != [] && kind == Int ==> value == atoul(us[|us| - 1].val)
      ensures us != [] && kind == Msz ==>
        cells != null && cells[..] == AllPadded(Effective(us)) + ['\0'] && value == 2 * cells.Length
    {
      ExpectedMeans(kind, us, initial, atoul);
    }

    /** Sets and clears the add flag; true if what was there before is discarded. */
    method Mark(plus: bool, ghost us: seq<Use>, ghost u: Use) returns (discard: bool)
      requires Flagged(us) && u.add == plus
      modifies this`add, this`found
      ensures Flagged(us + [u])
      ensures discard <==> us != [] && AllAdd(us) && !plus
    {
      AllAddGrows(us, u);
      discard := false;
      if plus {
        if !found {
          add := true;
        }
      } else if add {
        add := false;
        discard := true;
      }
      found := true;
    }

    /** Forgets the values so far. */
    method Discard()
      modifies this`value, this`text, this`cells
      ensures View() == Fields(NoText, NoCells, 0)
    {
      value := 0;
      text := NoText;
      cells := null;
    }

    /** Stores the value by the option's kind. */
    method SetValue(val: CText, atoul: string -> nat, ghost es: seq<Use>, ghost u: Use, ghost before: nat, ghost initial: nat)
      requires View() == Expected(kind, es, before, atoul) && u.val == val
      modifies this`text, this`value, this`cells
      ensures View() == Expected(kind, es + [u], initial, atoul)
    {
      ExpectedNext(kind, es, u, initial, before, atoul);
      if kind == Str {
        text := Text(val);
      } else if kind == Int {
        value := atoul(val);
      } else if kind == Msz {
        AppendCells(val, AllPadded(es));
      }
    }

    /** The flags for one more use u; what was there before is discarded at a -- after nothing but ++. */
    method Begin(plus: bool, ghost us: seq<Use>, ghost u: Use) returns (ghost discard: bool)
      requires Flagged(us) && u.add == plus
      modifies this
      ensures Flagged(us + [u])
      ensures discard <==> us != [] && AllAdd(us) && !plus
      ensures View() == if discard then Fields(NoText, NoCells, 0) else old(View())
    {
      var d := Mark(plus, us, u);
      if d {
        Discard();
      }
      discard := d;
    }

    /** One use of the option: the flags, the discarding, and the value by its kind. */
    method Take(plus: bool, val: CText, atoul: string -> nat, ghost us: seq<Use>, ghost initial: nat)
      requires Reflects(us, initial, atoul)
      modifies this
      ensures Reflects(us + [Use(plus, val)], initial, atoul)
    {
      ghost var u := Use(plus, val);
      ghost var discard := Begin(plus, us, u);
      EffectiveNext(us, u, discard);
      SetValue(val, atoul, if discard then [] else Effective(us), u, if discard then 0 else initial, initial);
    }

    /** Grows the packed buffer by one value: what was there stays, less its final NUL. */
    method AppendCells(val: CText, ghost e: string)
      requires View() == PackedFields(e)
      modifies this`cells, this`value
      ensures View() == PackedFields(e + Padded(val))
    {
      var insquote, indquote := false, false;
      var sp: nat := 0;
      var ov := cells;
      if value > 2 {
        sp := (value - WCHAR_SIZE) / WCHAR_SIZE;
      }
      assert sp == |e|;
      var count := sp + |val| + 2;
      value := count * WCHAR_SIZE;
      var buf := new char[count](_ => NUL);
      cells := buf;
      if sp != 0 {
        CopyFront(buf, ov, sp, e);
      }
      for k := 0 to |val|
        invariant Cutting(buf, sp, val, k, insquote, indquote, e)
        invariant cells == buf && value == count * WCHAR_SIZE
      {
        sp, insquote, indquote := CutOne(buf, sp, val, k, insquote, indquote, e);
      }
      FilledUp(buf[..], e, val);
    }
  }

  /** k characters of the value have been cut into the cells behind e. */
  ghost predicate Cutting(buf: array<char>, sp: nat, val: string, k: nat, insquote: bool, indquote: bool, e: string)
    requires k <= |val|
    reads buf
  {
    && sp == |e| + |Cut(val, k)|
    && insquote == Inside(val, '\'', k) && indquote == Inside(val, '"', k)
    && Filled(buf, e + Cut(val, k))
  }

  /** One round of the quote-aware copy loop. */
  method CutOne(buf: array<char>, at: nat, val: string, k: nat, ins: bool, ind: bool, ghost e: string)
      returns (sp: nat, insquote: bool, indquote: bool)
    requires k < |val| && |e| + |val| < buf.Length && Cutting(buf, at, val, k, ins, ind, e)
    modifies buf
    ensures Cutting(buf, sp, val, k + 1, insquote, indquote, e)
  {
    sp, insquote, indquote := at, ins, ind;
    ghost var w := e + Cut(val, k);
    var c := val[k];
    if c == '\'' {
      insquote := !insquote;
    } else if c == '"' {
      indquote := !indquote;
      PutCell(buf, sp, '"', w);
      assert e + Cut(val, k + 1) == w + ['"'];
      sp := sp + 1;
    } else if (c == '#' || c == ';') && !insquote && !indquote {
      PutCell(buf, sp, NUL, w);
      assert e + Cut(val, k + 1) == w + [NUL];
      sp := sp + 1;
    } else {
      PutCell(buf, sp, c, w);
      assert e + Cut(val, k + 1) == w + [c];
      sp := sp + 1;
    }
  }

  lemma Regroup(a: string, b: string, c: string, d: string)
    ensures a + (b + c) + d == a + b + (c + d)
  {
  }

  lemma OnlyNuls(s: string, n: nat)
    requires |s| == n + 1 && forall i :: 0 <= i < |s| ==> s[i] == NUL
    ensures s == Nuls(n) + [NUL]
  {
  }

  lemma FilledUp(b: string, e: string, val: string)
    requires |b| == |e| + |val| + 2 && e + Cut(val, |val|) <= b
    requires forall i :: |e + Cut(val, |val|)| <= i < |b| ==> b[i] == NUL
    ensures b == e + Padded(val) + [NUL]
  {
    var w := e + Cut(val, |val|);
    var z := Nuls(|val| + 1 - |Cut(val, |val|)|);
    OnlyNuls(b[|w|..], |z|);
    assert b == b[..|w|] + b[|w|..];
    Regroup(e, Cut(val, |val|), z, [NUL]);
  }

  method CopyFront(buf: array<char>, ov: array<char>, sp: nat, ghost e: string)
    requires buf != ov && sp == |e| && ov[..] == e + [NUL] && sp <= buf.Length && Filled(buf, "")
    modifies buf
    ensures Filled(buf, e)
  {
    MoveCells(buf, 0, ov, sp);
    assert forall i :: 0 <= i < sp ==> buf[i + 0] == ov[i] == ov[..][i] == e[i];
  }

  // ----- The argument list -----

  predicate IsOption(a: string) {
    |a| >= 2 && (a[..2] == "++" || a[..2] == "--")
  }

  /** The first '=' at or behind k, or the end. */
  function EqualsAt(a: string, k: nat): (n: nat)
    requires k <= |a|
    ensures k <= n <= |a| && '=' !in a[k..n] && (n < |a| ==> a[n] == '=')
    decreases |a| - k
  {
    if k == |a| || a[k] == '=' then k
    else
      var n := EqualsAt(a, k + 1);
      assert a[k..n] == [a[k]] + a[k + 1..n];
      n
  }

  /** The first option of that name, or the number of options. */
  function Find(names: seq<string>, name: string): (l: nat)
    ensures l <= |names| && (l < |names| ==> names[l] == name)
    ensures forall j :: 0 <= j < l ==> names[j] != name
  {
    if names == [] || names[0] == name then 0 else 1 + Find(names[1..], name)
  }

  /** A use of the option with index opt. */
  datatype Given = Given(opt: nat, use: Use)

  datatype Parsed = Accepted(uses: seq<Given>, rest: nat) | UnknownOption(at: nat) | MissingValue(at: nat)

  function After(g: Given, p: Parsed): Parsed {
    match p
    case Accepted(us, rest) => Accepted([g] + us, rest)
    case _ => p
  }

  /** What the argument at i is, and where the next one stands. */
  datatype Argument = NotAnOption | Unknown | NoValue(opt: nat) | OneUse(given: Given, next: nat)

  function ArgumentAt(argv: seq<CText>, i: nat, names: seq<string>): (r: Argument)
    ensures r.OneUse? ==> i < r.next <= |argv| && r.given.opt < |names|
    ensures r.NoValue? ==> r.opt < |names|
  {
    if i >= |argv| || !IsOption(argv[i]) then NotAnOption
    else
      var a := argv[i];
      var n := EqualsAt(a, 2);
      var l := Find(names, a[2..n]);
      if l == |names| then Unknown
      else if n < |a| then
        assert forall k :: n + 1 <= k < |a| ==> a[k] in a;
        OneUse(Given(l, Use(a[..2] == "++", a[n + 1..])), i + 1)
      else if i + 1 < |argv| then OneUse(Given(l, Use(a[..2] == "++", argv[i + 1])), i + 2)
      else NoValue(l)
  }

  /** What the arguments from i on say, up to the first that is not an option. */
  function Scan(argv: seq<CText>, i: nat, names: seq<string>): Parsed
    decreases |argv| - i
  {
    match ArgumentAt(argv, i, names)
    case NotAnOption => Accepted([], i)
    case Unknown => UnknownOption(i)
    case NoValue(_) => MissingValue(i)
    case OneUse(g, next) => After(g, Scan(argv, next, names))
  }

  /** The uses of one option, in the order of the arguments. */
  function UsesOf(gs: seq<Given>, l: nat): seq<Use> {
    if gs == [] then []
    else
      var last := gs[|gs| - 1];
      UsesOf(gs[..|gs| - 1], l) + if last.opt == l then [last.use] else []
  }

  lemma UsesGrow(gs: seq<Given>, g: Given, l: nat)
    ensures UsesOf(gs + [g], l) == if g.opt == l then UsesOf(gs, l) + [g.use] else UsesOf(gs, l)
  {
    assert (gs + [g])[..|gs|] == gs;
  }

  // ----- The grammar of the argument list -----

  function Prefix(u: Use): string {
    if u.add then "++" else "--"
  }

  /** The argument at i gives the use g by itself: mark, name, '=' and value. */
  ghost predicate InOne(argv: seq<CText>, i: nat, g: Given, names: seq<string>) {
    i < |argv| && g.opt < |names| && argv[i] == Prefix(g.use) + names[g.opt] + "=" + g.use.val
  }

  /** The arguments at i and i + 1 give the use g: mark and name, then the value. */
  ghost predicate InTwo(argv: seq<CText>, i: nat, g: Given, names: seq<string>) {
    && i + 1 < |argv| && g.opt < |names|
    && argv[i] == Prefix(g.use) + names[g.opt] && argv[i + 1] == g.use.val
  }

  /** The arguments from i up to rest spell out the uses gs, and no option stands at rest. */
  ghost predicate Spells(argv: seq<CText>, i: nat, gs: seq<Given>, rest: nat, names: seq<string>)
    decreases |gs|
  {
    if gs == [] then i == rest && (i < |argv| ==> !IsOption(argv[i]))
    else
      || (InOne(argv, i, gs[0], names) && Spells(argv, i + 1, gs[1..], rest, names))
      || (InTwo(argv, i, gs[0], names) && Spells(argv, i + 2, gs[1..], rest, names))
  }

  /** No two options of the same name, and no name that holds a '='. */
  ghost predicate GoodNames(names: seq<string>) {
    && (forall i, j :: 0 <= i < j < |names| ==> names[i] != names[j])
    && (forall i :: 0 <= i < |names| ==> '=' !in names[i])
  }

  lemma {:induction false} EqualsIs(a: string, k: nat, n: nat)
    requires k <= n <= |a| && (n < |a| ==> a[n] == '=') && '=' !in a[k..n]
    ensures EqualsAt(a, k) == n
    decreases n - k
  {
    if k < n {
      assert a[k] == a[k..n][0] && a[k + 1..n] == a[k..n][1..];
      EqualsIs(a, k + 1, n);
    }
  }

  lemma {:induction false} FindIs(names: seq<string>, name: string, l: nat)
    requires l <= |names| && (l < |names| ==> names[l] == name)
    requires forall j :: 0 <= j < l ==> names[j] != name
    ensures Find(names, name) == l
    decreases l
  {
    if l > 0 {
      assert forall j :: 0 <= j < l - 1 ==> names[1..][j] == names[j + 1];
      FindIs(names[1..], name, l - 1);
    }
  }

  lemma WithValue(a: string, mark: string, name: string, val: string)
    requires |mark| == 2 && '=' !in name && a == mark + name + "=" + val
    ensures |a| > 2 + |name| && EqualsAt(a, 2) == 2 + |name|
    ensures a[..2] == mark && a[2..2 + |name|] == name && a[2 + |name| + 1..] == val
  {
    var n := 2 + |name|;
    assert a[2..n] == name && a[n] == '=';
    EqualsIs(a, 2, n);
  }

  lemma WithoutValue(a: string, mark: string, name: string)
    requires |mark| == 2 && '=' !in name && a == mark + name
    ensures EqualsAt(a, 2) == |a| && a[..2] == mark && a[2..] == name
  {
    assert a[2..|a|] == name;
    EqualsIs(a, 2, |a|);
  }

  lemma Parts(a: string, n: nat)
    requires 2 <= n < |a|
    ensures a == a[..2] + a[2..n] + [a[n]] + a[n + 1..]
  {
  }

  /** An argument is read as a use exactly if it spells that use. */
  lemma ReadsExactly(argv: seq<CText>, i: nat, g: Given, names: seq<string>)
    requires GoodNames(names)
    ensures ArgumentAt(argv, i, names) == OneUse(g, i + 1) <==> InOne(argv, i, g, names)
    ensures ArgumentAt(argv, i, names) == OneUse(g, i + 2) <==> InTwo(argv, i, g, names)
  {
    if InOne(argv, i, g, names) {
      WithValue(argv[i], Prefix(g.use), names[g.opt], g.use.val);
      FindIs(names, names[g.opt], g.opt);
    } else if InTwo(argv, i, g, names) {
      WithoutValue(argv[i], Prefix(g.use), names[g.opt]);
      FindIs(names, names[g.opt], g.opt);
    } else if i < |argv| && IsOption(argv[i]) {
      ReadsOnly(argv, i, g, names);
    }
  }

  lemma ReadsOnly(argv: seq<CText>, i: nat, g: Given, names: seq<string>)
    requires i < |argv| && IsOption(argv[i])
    ensures ArgumentAt(argv, i, names) == OneUse(g, i + 1) ==> InOne(argv, i, g, names)
    ensures ArgumentAt(argv, i, names) == OneUse(g, i + 2) ==> InTwo(argv, i, g, names)
  {
    var a := argv[i];
    var n := EqualsAt(a, 2);
    if n < |a| {
      Parts(a, n);
    } else {
      assert a == a[..2] + a[2..];
    }
  }

  /**
   * The option loop accepts an argument list as the uses gs, and leaves the
   * arguments from rest on, exactly if the list spells these uses.
   */
  lemma {:induction false} AcceptedIffSpelled(argv: seq<CText>, i: nat, gs: seq<Given>, rest: nat, names: seq<string>)
    requires GoodNames(names)
    ensures Scan(argv, i, names) == Accepted(gs, rest) <==> Spells(argv, i, gs, rest, names)
    decreases |gs|
  {
    if gs != [] {
      ReadsExactly(argv, i, gs[0], names);
      AcceptedIffSpelled(argv, i + 1, gs[1..], rest, names);
      AcceptedIffSpelled(argv, i + 2, gs[1..], rest, names);
      assert gs == [gs[0]] + gs[1..];
    }
    var a := ArgumentAt(argv, i, names);
    if a.OneUse? {
      NextFrom(argv, i, names);
      SplitAccepted(a.given, Scan(argv, a.next, names), gs, rest);
    }
  }

  lemma NextFrom(argv: seq<CText>, i: nat, names: seq<string>)
    ensures ArgumentAt(argv, i, names).OneUse? ==> ArgumentAt(argv, i, names).next in {i + 1, i + 2}
  {
  }

  lemma SplitAccepted(g: Given, p: Parsed, gs: seq<Given>, rest: nat)
    ensures After(g, p) == Accepted(gs, rest) <==> gs != [] && gs[0] == g && p == Accepted(gs[1..], rest)
  {
    if p.Accepted? {
      assert ([g] + p.uses)[1..] == p.uses;
      if gs != [] {
        assert gs == [gs[0]] + gs[1..];
      }
    }
  }

  /** The two ways to give a use in one argument and in two, spelled out. */
  lemma UsesSpelledOut(name: CText, val: CText)
    requires '=' !in name && '\0' !in "--" + name + "=" + val && '\0' !in "++" + name + "=" + val
    requires '\0' !in "--" + name && '\0' !in "++" + name
    ensures ArgumentAt(["--" + name + "=" + val], 0, [name]) == OneUse(Given(0, Use(false, val)), 1)
    ensures ArgumentAt(["++" + name + "=" + val], 0, [name]) == OneUse(Given(0, Use(true, val)), 1)
    ensures ArgumentAt(["--" + name, val], 0, [name]) == OneUse(Given(0, Use(false, val)), 2)
    ensures ArgumentAt(["++" + name, val], 0, [name]) == OneUse(Given(0, Use(true, val)), 2)
  {
    var names := [name];
    ReadsExactly(["--" + name + "=" + val], 0, Given(0, Use(false, val)), names);
    ReadsExactly(["++" + name + "=" + val], 0, Given(0, Use(true, val)), names);
    ReadsExactly(["--" + name, val], 0, Given(0, Use(false, val)), names);
    ReadsExactly(["++" + name, val], 0, Given(0, Use(true, val)), names);
  }

  /** What is no option, and which option lacks its value. */
  lemma OtherArguments(argv: seq<CText>, i: nat, names: seq<string>)
    requires i < |argv|
    ensures
      var a := argv[i];
      ArgumentAt(argv, i, names) == NotAnOption <==>
        |a| < 2 || !((a[0] == '+' && a[1] == '+') || (a[0] == '-' && a[1] == '-'))
    ensures ArgumentAt(argv, i, names).NoValue? ==>
      i == |argv| - 1 && names[ArgumentAt(argv, i, names).opt] == argv[i][2..] && '=' !in argv[i][2..]
  {
    if |argv[i]| >= 2 {
      assert argv[i][..2] == [argv[i][0], argv[i][1]];
    }
  }

  /** An argument names no option only if it is no option's name, nor one with a '=' behind it. */
  lemma UnknownArgument(argv: seq<CText>, i: nat, names: seq<string>, l: nat)
    requires GoodNames(names) && i < |argv| && ArgumentAt(argv, i, names) == Unknown && l < |names|
    ensures argv[i][2..] != names[l] && !(names[l] + ['='] <= argv[i][2..])
  {
    var a := argv[i];
    var mark, x := a[..2], a[2..];
    assert a == mark + x;
    if x == names[l] {
      WithoutValue(a, mark, x);
    } else if names[l] + ['='] <= x {
      var val := x[|names[l]| + 1..];
      assert a == mark + names[l] + "=" + val;
      WithValue(a, mark, names[l], val);
    }
  }

  /** Uses already taken in front of what is still to come. */
  function Taken(gs: seq<Given>, p: Parsed): Parsed {
    match p
    case Accepted(us, rest) => Accepted(gs + us, rest)
    case _ => p
  }

  lemma TakenOneMore(gs: seq<Given>, g: Given, p: Parsed)
    ensures Taken(gs, After(g, p)) == Taken(gs + [g], p)
  {
    if p.Accepted? {
      assert gs + ([g] + p.uses) == gs + [g] + p.uses;
    }
  }

  ghost predicate Distinct(options: seq<CmdOption>) {
    forall i, j :: 0 <= i < j < |options| ==> options[i] != options[j]
  }

  ghost function Names(options: seq<CmdOption>): (names: seq<string>)
    ensures |names| == |options| && forall l :: 0 <= l < |options| ==> names[l] == options[l].name
  {
    seq(|options|, l requires 0 <= l < |options| => options[l].name)
  }

  /** Every option of the table reflects its own uses among those given. */
  ghost predicate TableReflects(options: seq<CmdOption>, gs: seq<Given>, initial: seq<nat>, atoul: string -> nat)
    requires |initial| == |options|
    reads options, set o | o in options :: o.cells
  {
    forall l :: 0 <= l < |options| ==> options[l].Reflects(UsesOf(gs, l), initial[l], atoul)
  }

  /** Passes one use on to its option; the other options keep what they have. */
  method TakeGiven(options: seq<CmdOption>, l: nat, plus: bool, val: CText, atoul: string -> nat,
                   ghost gs: seq<Given>, ghost initial: seq<nat>)
    requires l < |options| && Distinct(options) && |initial| == |options|
    requires TableReflects(options, gs, initial, atoul)
    modifies options[l]
    ensures TableReflects(options, gs + [Given(l, Use(plus, val))], initial, atoul)
  {
    ghost var g := Given(l, Use(plus, val));
    assert options[l].Reflects(UsesOf(gs, l), initial[l], atoul);
    options[l].Take(plus, val, atoul, UsesOf(gs, l), initial[l]);
    forall m | 0 <= m < |options|
      ensures options[m].Reflects(UsesOf(gs + [g], m), initial[m], atoul)
    {
      UsesGrow(gs, g, m);
      if m != l {
        assert options[m] != options[l];
        assert old(options[m].Reflects(UsesOf(gs, m), initial[m], atoul));
      }
    }
  }

  /** The source's lookup loop. */
  method Lookup(options: seq<CmdOption>, name: string) returns (l: nat)
    ensures l == Find(Names(options), name)
  {
    l := 0;
    ghost var names := Names(options);
    while l < |options| && options[l].name != name
      invariant l <= |options| && forall j :: 0 <= j < l ==> names[j] != name
    {
      l := l + 1;
    }
    FindIs(names, name, l);
  }

  /** The part of the loop that looks at one argument, and at the next one for its value. */
  method ReadArgument(argv: seq<CText>, i: nat, options: seq<CmdOption>) returns (r: Argument)
    requires i < |argv|
    ensures r == ArgumentAt(argv, i, Names(options))
  {
    var a := argv[i];
    var plus := false;
    if |a| >= 2 && a[0] == '+' && a[1] == '+' {
      plus := true;
    } else if |a| < 2 || a[0] != '-' || a[1] != '-' {
      return NotAnOption;
    }
    assert a[..2] == (if plus then "++" else "--");
    var p := 2;
    while p < |a| && a[p] != '='
      invariant 2 <= p <= |a| && EqualsAt(a, 2) == EqualsAt(a, p)
    {
      p := p + 1;
    }
    var l := Lookup(options, a[2..p]);
    if l == |options| {
      return Unknown;
    }
    if p < |a| {
      assert forall k :: p + 1 <= k < |a| ==> a[k] in a;
      return OneUse(Given(l, Use(plus, a[p + 1..])), i + 1);
    } else if i + 1 < |argv| {
      return OneUse(Given(l, Use(plus, argv[i + 1])), i + 2);
    } else {
      return NoValue(l);
    }
  }

  /**
   * The option loop from argument s on. It accepts exactly the lists that Scan
   * accepts; then every option of the table reflects all uses made of it, and
   * rest is the first argument that is not an option.
   */
  method Parse(argv: seq<CText>, s: nat, options: seq<CmdOption>, atoul: string -> nat, ghost initial: seq<nat>)
      returns (ok: bool, rest: nat)
    requires Distinct(options) && |initial| == |options|
    requires TableReflects(options, [], initial, atoul)
    modifies options
    ensures ok <==> Scan(argv, s, Names(options)).Accepted?
    ensures ok ==> rest == Scan(argv, s, Names(options)).rest
    ensures ok ==> TableReflects(options, Scan(argv, s, Names(options)).uses, initial, atoul)
  {
    ghost var names, gs := Names(options), [];
    ghost var all := Scan(argv, s, names);
    var i := s;
    assert Taken([], all) == all;
    while i < |argv|
      invariant all == Taken(gs, Scan(argv, i, names))
      invariant TableReflects(options, gs, initial, atoul)
      decreases |argv| - i
    {
      var r := ReadArgument(argv, i, options);
      match r {
        case NotAnOption =>
          break;
        case Unknown =>
          return false, i;
        case NoValue(l) =>
          options[l].value, options[l].text, options[l].cells := 0, NoText, null;
          options[l].found := true;
          return false, i;
        case OneUse(g, next) =>
          TakeGiven(options, g.opt, g.use.add, g.use.val, atoul, gs, initial);
          TakenOneMore(gs, g, Scan(argv, next, names));
          gs := gs + [g];
          i := next;
      }
    }
    assert Scan(argv, i, names) == Accepted([], i);
    assert gs + [] == gs;
    return true, i;
  }
}
