/**
 * Expanding the entries of a class path that end in an asterisk, on Unix
 * (arguments.c) and on Windows (javajni.c).
 */
module ClassPath {
  import opened CStrings

  const JAVA_CLASSPATH: string := "-Djava.class.path="
  const PATH_MAX: nat := 4096
  const MAX_PATH: nat := 260

  /** What is found for a pattern; when the search succeeds there is at least one name. */
  datatype Globbed = Failed | Found(first: string, more: seq<string>) {
    function Names(): seq<string> {
      if Failed? then [] else [first] + more
    }
  }

  /** glob() finds paths, FindFirstFile() and FindNextFile() find the names of files. */
  datatype Os = Unix(glob: string -> Globbed) | Windows(find: string -> Globbed) {
    function Sep(): char {
      if Unix? then ':' else ';'
    }

    /** The longest entry that is expanded. */
    function Limit(): nat {
      (if Unix? then PATH_MAX else MAX_PATH) + 1 - 5
    }

    /** What an entry is replaced by. On Windows the entry less its asterisk is put before each name. */
    function Paths(part: string): seq<string>
      requires Starred(part)
    {
      if Unix? then glob(part + ".jar").Names()
      else InFolder(part[..|part| - 1], find(part + ".jar").Names())
    }
  }

  function InFolder(dir: string, names: seq<string>): (r: seq<string>)
    ensures |r| == |names| && forall i :: 0 <= i < |names| ==> r[i] == dir + names[i]
  {
    seq(|names|, i requires 0 <= i < |names| => dir + names[i])
  }

  // ----- What the expansion means -----

  function Joined(xs: seq<string>, sep: char): string {
    if xs == [] then ""
    else if |xs| == 1 then xs[0]
    else Joined(xs[..|xs| - 1], sep) + [sep] + xs[|xs| - 1]
  }

  /** The first separator at or behind k, or the end. */
  function SepAt(t: string, k: nat, sep: char): (n: nat)
    requires k <= |t|
    ensures k <= n <= |t| && (n < |t| ==> t[n] == sep)
    ensures forall i :: k <= i < n ==> t[i] != sep
    decreases |t| - k
  {
    if k == |t| || t[k] == sep then k else SepAt(t, k + 1, sep)
  }

  /** The text from k on, split at its separators. */
  function Parts(t: string, k: nat, sep: char): seq<string>
    requires k <= |t|
    decreases |t| - k
  {
    var n := SepAt(t, k, sep);
    if n == |t| then [t[k..]] else [t[k..n]] + Parts(t, n + 1, sep)
  }

  predicate Starred(part: string) {
    part != "" && part[|part| - 1] == '*'
  }

  /** What one entry is replaced by. */
  function Expanded(part: string, os: Os): string {
    if !Starred(part) || |part| > os.Limit() then part else Joined(os.Paths(part), os.Sep())
  }

  function AllExpanded(parts: seq<string>, os: Os): (r: seq<string>)
    ensures |r| == |parts|
  {
    if parts == [] then [] else AllExpanded(parts[..|parts| - 1], os) + [Expanded(parts[|parts| - 1], os)]
  }

  /** An empty last entry does not count. */
  function Entries(cp: string, sep: char): seq<string> {
    var ps := Parts(cp, 0, sep);
    if ps[|ps| - 1] == "" then ps[..|ps| - 1] else ps
  }

  lemma JoinedMore(xs: seq<string>, x: string, sep: char)
    ensures Joined(xs + [x], sep) == if xs == [] then x else Joined(xs, sep) + [sep] + x
  {
    assert (xs + [x])[..|xs|] == xs;
  }

  lemma ExpandedMore(ps: seq<string>, p: string, os: Os)
    ensures AllExpanded(ps + [p], os) == AllExpanded(ps, os) + [Expanded(p, os)]
  {
    assert (ps + [p])[..|ps|] == ps;
  }

  /** The first n strings, each followed by a separator. */
  function EachWithSep(xs: seq<string>, n: nat, sep: char): string
    requires n <= |xs|
  {
    if n == 0 then "" else EachWithSep(xs, n - 1, sep) + xs[n - 1] + [sep]
  }

  lemma {:induction false} JoinedIsEach(xs: seq<string>, n: nat, sep: char)
    requires n < |xs|
    ensures Joined(xs[..n + 1], sep) == EachWithSep(xs, n, sep) + xs[n]
    ensures n + 1 == |xs| ==> xs[..n + 1] == xs
  {
    if n == 0 {
      assert xs[..1] == [xs[0]];
    } else {
      JoinedIsEach(xs, n - 1, sep);
      assert xs[..n + 1] == xs[..n] + [xs[n]];
      JoinedMore(xs[..n], xs[n], sep);
      assert EachWithSep(xs, n, sep) == Joined(xs[..n], sep) + [sep];
    }
  }

  /** Each of the strings with the mark in front of it. */
  function EachBehind(mark: string, xs: seq<string>): string {
    if xs == [] then "" else mark + xs[0] + EachBehind(mark, xs[1..])
  }

  lemma Associates(a: string, b: string, c: string, d: string)
    ensures a + b + c + d == a + (b + c + d)
  {
  }

  lemma {:induction false} EachBehindMore(mark: string, xs: seq<string>, x: string)
    ensures EachBehind(mark, xs + [x]) == EachBehind(mark, xs) + mark + x
  {
    if xs == [] {
      assert ([] + [x])[1..] == [] && mark + x + "" == "" + mark + x;
    } else {
      assert (xs + [x])[1..] == xs[1..] + [x];
      EachBehindMore(mark, xs[1..], x);
      Associates(mark + xs[0], EachBehind(mark, xs[1..]), mark, x);
    }
  }

  lemma {:induction false} JoinedIsBehind(x: string, xs: seq<string>, sep: char)
    ensures Joined([x] + xs, sep) == x + EachBehind([sep], xs)
    decreases |xs|
  {
    if xs == [] {
      assert [x] + [] == [x] && x + "" == x;
    } else {
      var init, last := xs[..|xs| - 1], xs[|xs| - 1];
      assert xs == init + [last] && [x] + xs == ([x] + init) + [last];
      JoinedIsBehind(x, init, sep);
      JoinedMore([x] + init, last, sep);
      EachBehindMore([sep], init, last);
      Associates(x, EachBehind([sep], init), [sep], last);
    }
  }

  lemma {:induction false} BehindInFolder(mark: string, dir: string, names: seq<string>)
    ensures EachBehind(mark, InFolder(dir, names)) == EachBehind(mark + dir, names)
  {
    if names != [] {
      assert InFolder(dir, names)[1..] == InFolder(dir, names[1..]);
      BehindInFolder(mark, dir, names[1..]);
      assert mark + (dir + names[0]) == mark + dir + names[0];
    }
  }

  // ----- The code -----

  /** memstrcat and __apxStrnCatA, on the strings its pointers address. */
  function MemStrCat(ptr: string, str: string, add: string): string {
    ptr + str + add
  }

  /** A starred entry on Unix: the paths that glob finds for it with ".jar" behind, joined by colons. */
  lemma ExpandedOnUnix(part: string, glob: string -> Globbed)
    requires part != "" && part[|part| - 1] == '*'
    ensures |part| > 4092 ==> Expanded(part, Unix(glob)) == part
    ensures |part| <= 4092 ==>
      Expanded(part, Unix(glob)) ==
      match glob(part + ".jar")
      case Failed => ""
      case Found(f, more) => f + EachBehind(":", more)
  {
    var g := glob(part + ".jar");
    if g.Found? {
      JoinedIsBehind(g.first, g.more, ':');
    }
  }

  /** On Windows: the entry less its asterisk before every name that is found, joined by semicolons. */
  lemma ExpandedOnWindows(part: string, find: string -> Globbed)
    requires part != "" && part[|part| - 1] == '*'
    ensures |part| > 256 ==> Expanded(part, Windows(find)) == part
    ensures |part| <= 256 ==>
      var dir := part[..|part| - 1];
      Expanded(part, Windows(find)) ==
      match find(part + ".jar")
      case Failed => ""
      case Found(f, more) => dir + f + EachBehind(";" + dir, more)
  {
    var g, dir := find(part + ".jar"), part[..|part| - 1];
    if g.Found? && |part| <= 256 {
      var paths := InFolder(dir, [g.first] + g.more);
      assert paths == [dir + g.first] + InFolder(dir, g.more);
      JoinedIsBehind(dir + g.first, InFolder(dir, g.more), ';');
      BehindInFolder(";", dir, g.more);
    }
  }

  /** eval_ppath; allocation does not fail. */
  method EvalPPath(strcp: string, pattern: string, os: Os) returns (r: string)
    requires os.Unix? && Starred(pattern)
    ensures r == strcp + Expanded(pattern, os)
    ensures |pattern| > 4092 ==> r == strcp + pattern
    ensures |pattern| <= 4092 ==>
      match os.glob(pattern + ".jar")
      case Failed => r == strcp
      case Found(f, more) => r == strcp + (f + EachBehind(":", more))
  {
    ExpandedOnUnix(pattern, os.glob);
    assert strcp + "" == strcp;
    if |pattern| > PATH_MAX + 1 - 5 {
      return MemStrCat(strcp, pattern, "");
    }
    r := strcp;
    var globbuf := os.glob(pattern + ".jar");
    if globbuf.Found? {
      var pathv := globbuf.Names();
      var n := 0;
      while n < |pathv| - 1
        invariant 0 <= n < |pathv|
        invariant r == strcp + EachWithSep(pathv, n, ':')
      {
        Associates(strcp, EachWithSep(pathv, n, ':'), pathv[n], ":");
        r := MemStrCat(r, pathv[n], ":");
        n := n + 1;
      }
      JoinedIsEach(pathv, n, ':');
      Associates(strcp, EachWithSep(pathv, n, ':'), pathv[n], "");
      r := MemStrCat(r, pathv[n], "");
    }
  }

  lemma OnePathMore(pStr: string, paths: seq<string>, n: nat, dir: string, name: string)
    requires n + 1 < |paths| && paths[n + 1] == dir + name
    ensures MemStrCat(pStr + Joined(paths[..n + 1], ';'), ";" + dir, name) == pStr + Joined(paths[..n + 2], ';')
  {
    assert paths[..n + 2] == paths[..n + 1] + [paths[n + 1]];
    JoinedMore(paths[..n + 1], paths[n + 1], ';');
    assert pStr + Joined(paths[..n + 1], ';') + (";" + dir) + name ==
           pStr + (Joined(paths[..n + 1], ';') + ";" + (dir + name));
  }

  /** __apxEvalPathPart; allocation does not fail. */
  method EvalPathPart(pStr: string, szPattern: string, os: Os) returns (r: string)
    requires os.Windows? && Starred(szPattern)
    ensures r == pStr + Expanded(szPattern, os)
    ensures |szPattern| > 256 ==> r == pStr + szPattern
    ensures |szPattern| <= 256 ==>
      var dir := szPattern[..|szPattern| - 1];
      match os.find(szPattern + ".jar")
      case Failed => r == pStr
      case Found(f, more) => r == pStr + (dir + f + EachBehind(";" + dir, more))
  {
    ExpandedOnWindows(szPattern, os.find);
    assert pStr + "" == pStr;
    if |szPattern| > MAX_PATH + 1 - 5 {
      return MemStrCat(pStr, szPattern, "");
    }
    var dir := szPattern[..|szPattern| - 1];
    var stGlob := os.find(szPattern + ".jar");
    if stGlob.Failed? {
      return pStr;
    }
    ghost var paths := os.Paths(szPattern);
    r := MemStrCat(pStr, dir, stGlob.first);
    assert paths[..1] == [dir + stGlob.first];
    for n := 0 to |stGlob.more|
      invariant r == pStr + Joined(paths[..n + 1], ';')
    {
      OnePathMore(pStr, paths, n, dir, stGlob.more[n]);
      r := MemStrCat(r, ";" + dir, stGlob.more[n]);
    }
    assert paths[..|stGlob.more| + 1] == paths;
  }

  /** strchr(ptr, sep), or __apxStrIndexA: the offset of the next separator, if the string has one. */
  method NextSep(buf: array<char>, ptr: nat, ghost t: string, sep: char) returns (found: bool, pos: nat)
    requires HoldsText(buf[..], ptr, t)
    ensures found <==> SepAt(t, 0, sep) < |t|
    ensures pos == ptr + SepAt(t, 0, sep)
  {
    assert forall i {:trigger buf[i]} :: ptr <= i <= ptr + |t| ==> buf[i] == buf[..][i];
    pos := ptr;
    while buf[pos] != NUL && buf[pos] != sep
      invariant ptr <= pos <= ptr + |t| && SepAt(t, 0, sep) == SepAt(t, pos - ptr, sep)
      decreases ptr + |t| - pos
    {
      pos := pos + 1;
    }
    found := buf[pos] != NUL;
  }

  /** The expanded entries so far, behind the prefix; nothing before the first. */
  datatype Collected = Nothing | Some(gcp: string)

  ghost predicate Collects(gcp: Collected, done: seq<string>, os: Os) {
    gcp == if done == [] then Nothing else Some(JAVA_CLASSPATH + Joined(AllExpanded(done, os), os.Sep()))
  }

  /** One entry: the separator or the prefix, then the entry or what it expands to. */
  method Collect(gcp: Collected, part: string, os: Os, ghost done: seq<string>) returns (r: Collected)
    requires Collects(gcp, done, os)
    ensures Collects(r, done + [part], os)
  {
    CollectedNext(done, part, os);
    var g := match gcp
      case Some(g) => MemStrCat(g, [os.Sep()], "")
      case Nothing => MemStrCat("", JAVA_CLASSPATH, "");
    if Starred(part) {
      if os.Unix? {
        g := EvalPPath(g, part, os);
      } else {
        g := EvalPathPart(g, part, os);
      }
    } else {
      g := MemStrCat(g, part, "");
    }
    r := Some(g);
  }

  lemma CollectedNext(done: seq<string>, part: string, os: Os)
    ensures JAVA_CLASSPATH + Joined(AllExpanded(done + [part], os), os.Sep()) ==
      MemStrCat(if done == [] then "" else JAVA_CLASSPATH + Joined(AllExpanded(done, os), os.Sep()),
                if done == [] then JAVA_CLASSPATH else [os.Sep()], "")
      + Expanded(part, os)
  {
    var xs := AllExpanded(done, os);
    ExpandedMore(done, part, os);
    JoinedMore(xs, Expanded(part, os), os.Sep());
    if done != [] {
      Associates(JAVA_CLASSPATH, Joined(xs, os.Sep()), [os.Sep()], Expanded(part, os));
    }
  }

  /** memstrcat(NULL, JAVA_CLASSPATH, cp): the copy that will be cut. */
  method CopyWithPrefix(cp: CText) returns (cpy: array<char>)
    ensures fresh(cpy) && HoldsText(cpy[..], 0, JAVA_CLASSPATH + cp)
    ensures HoldsText(cpy[..], |JAVA_CLASSPATH|, cp)
  {
    var t := MemStrCat("", JAVA_CLASSPATH, cp);
    cpy := new char[|t| + 1](i => if 0 <= i < |t| then t[i] else NUL);
    assert t == JAVA_CLASSPATH + cp;
    assert forall i {:trigger cpy[i]} :: 0 <= i < |t| ==> cpy[i] == t[i] && t[i] in t;
  }

  lemma SepInRest(t: string, k: nat, n: nat, sep: char)
    requires k <= |t| && n == SepAt(t, k, sep)
    ensures SepAt(t[k..], 0, sep) == n - k
  {
    SepIs(t[k..], 0, n - k, sep);
  }

  lemma {:induction false} SepIs(t: string, k: nat, n: nat, sep: char)
    requires k <= n <= |t| && (n < |t| ==> t[n] == sep) && forall i :: k <= i < n ==> t[i] != sep
    ensures SepAt(t, k, sep) == n
    decreases n - k
  {
    if k < n {
      SepIs(t, k + 1, n, sep);
    }
  }

  /** The next separator of the copy is the next separator of the class path. */
  method FindSep(cpy: array<char>, ptr: nat, ghost cp: string, ghost k: nat, sep: char) returns (found: bool, pos: nat)
    requires k <= |cp| && HoldsText(cpy[..], ptr, cp[k..])
    ensures found <==> SepAt(cp, k, sep) < |cp|
    ensures pos - ptr == SepAt(cp, k, sep) - k
  {
    SepInRest(cp, k, SepAt(cp, k, sep), sep);
    found, pos := NextSep(cpy, ptr, cp[k..], sep);
  }

  /** *pos = NUL makes the entry a string; what follows the separator is not touched. */
  method TakePart(cpy: array<char>, ptr: nat, pos: nat, ghost cp: string, ghost k: nat, ghost n: nat, sep: char)
      returns (part: string)
    requires k <= n < |cp| && pos == ptr + (n - k) && HoldsText(cpy[..], ptr, cp[k..])
    modifies cpy
    ensures part == cp[k..n] && HoldsText(cpy[..], pos + 1, cp[n + 1..])
  {
    ghost var b := cpy[..];
    cpy[pos] := NUL;
    assert HoldsText(cpy[..], ptr, cp[k..n]) by {
      assert forall i {:trigger b[i]} :: ptr <= i < pos ==> b[i] == cp[k..][i - ptr] == cp[k..n][i - ptr];
    }
    assert HoldsText(cpy[..], pos + 1, cp[n + 1..]) by {
      assert forall i {:trigger b[i]} :: pos < i < ptr + |cp[k..]| ==> b[i] == cp[k..][i - ptr] == cp[n + 1..][i - pos - 1];
    }
    HeldText(cpy[..], ptr, cp[k..n]);
    part := Text(cpy[..], ptr);
  }

  lemma LastEntry(cp: string, done: seq<string>, last: string, sep: char)
    requires Parts(cp, 0, sep) == done + [last]
    ensures Entries(cp, sep) == if last == "" then done else done + [last]
  {
    assert (done + [last])[..|done|] == done;
  }

  /** The entries before k have been collected, the rest stands uncut in the copy. */
  ghost predicate AtEntry(cpy: array<char>, ptr: nat, gcp: Collected, cp: string, k: nat, done: seq<string>,
                          os: Os)
    reads cpy
  {
    && k <= |cp| && HoldsText(cpy[..], ptr, cp[k..])
    && Collects(gcp, done, os)
    && Parts(cp, 0, os.Sep()) == done + Parts(cp, k, os.Sep())
  }

  lemma OnePartMore(cp: string, k: nat, done: seq<string>, sep: char)
    requires k <= |cp| && SepAt(cp, k, sep) < |cp| && Parts(cp, 0, sep) == done + Parts(cp, k, sep)
    ensures Parts(cp, 0, sep) == done + [cp[k..SepAt(cp, k, sep)]] + Parts(cp, SepAt(cp, k, sep) + 1, sep)
  {
    var n := SepAt(cp, k, sep);
    assert done + ([cp[k..n]] + Parts(cp, n + 1, sep)) == done + [cp[k..n]] + Parts(cp, n + 1, sep);
  }

  /** One round of the loop over the separators. */
  method TakeEntry(cpy: array<char>, ptr: nat, pos: nat, gcp: Collected, os: Os,
                   ghost cp: string, ghost k: nat, ghost done: seq<string>)
      returns (ptr': nat, gcp': Collected, ghost k': nat, ghost done': seq<string>)
    requires AtEntry(cpy, ptr, gcp, cp, k, done, os)
    requires SepAt(cp, k, os.Sep()) < |cp| && pos - ptr == SepAt(cp, k, os.Sep()) - k
    modifies cpy
    ensures AtEntry(cpy, ptr', gcp', cp, k', done', os)
    ensures k < k' && done' != []
  {
    ghost var n := SepAt(cp, k, os.Sep());
    OnePartMore(cp, k, done, os.Sep());
    var part := TakePart(cpy, ptr, pos, cp, k, n, os.Sep());
    gcp' := Collect(gcp, part, os, done);
    done' := done + [part];
    ptr', k' := pos + 1, n + 1;
  }

  /** The entry behind the last separator, unless it is empty. */
  method TakeLast(cpy: array<char>, ptr: nat, gcp: Collected, os: Os,
                  ghost cp: string, ghost k: nat, ghost done: seq<string>)
      returns (r: Collected)
    requires AtEntry(cpy, ptr, gcp, cp, k, done, os) && SepAt(cp, k, os.Sep()) == |cp|
    ensures Collects(r, Entries(cp, os.Sep()), os)
  {
    LastEntry(cp, done, cp[k..], os.Sep());
    r := gcp;
    if cpy[ptr] != NUL {
      HeldText(cpy[..], ptr, cp[k..]);
      r := Collect(gcp, Text(cpy[..], ptr), os, done);
    } else {
      assert cpy[..][ptr] == NUL;
    }
  }

  /** The class path behind its prefix. */
  function Value(cp: string, os: Os): string {
    Joined(AllExpanded(Entries(cp, os.Sep()), os), os.Sep())
  }

  lemma OneEntry(cp: string, os: Os)
    requires cp != "" && os.Sep() !in cp
    ensures Value(cp, os) == Expanded(cp, os)
  {
    var sep := os.Sep();
    assert SepAt(cp, 0, sep) == |cp| && cp[0..] == cp;
    assert Entries(cp, sep) == [cp];
    ExpandedMore([], cp, os);
    assert [] + [cp] == [cp] && AllExpanded([], os) + [Expanded(cp, os)] == [Expanded(cp, os)];
  }

  /** A class path of one starred entry on Unix. */
  lemma OneStarredEntry(cp: string, glob: string -> Globbed)
    requires cp != "" && ':' !in cp && cp[|cp| - 1] == '*' && |cp| <= 4092
    ensures Value(cp, Unix(glob)) ==
      match glob(cp + ".jar")
      case Failed => ""
      case Found(f, more) => f + EachBehind(":", more)
  {
    OneEntry(cp, Unix(glob));
    ExpandedOnUnix(cp, glob);
  }

  /**
   * eval_cpath and __apxEvalClasspath, with allocation succeeding: the prefix and
   * the expanded entries, joined again. cpy is the copy whose separators are
   * overwritten one by one.
   */
  method EvalCPath(cp: CText, os: Os) returns (r: string)
    ensures r == "-Djava.class.path=" + Value(cp, os)
    ensures os.Unix? && ':' !in cp && cp != "" && cp[|cp| - 1] == '*' && |cp| <= 4092 ==>
      match os.glob(cp + ".jar")
      case Failed => r == "-Djava.class.path="
      case Found(f, more) => r == "-Djava.class.path=" + (f + EachBehind(":", more))
  {
    if os.Unix? && ':' !in cp && cp != "" && cp[|cp| - 1] == '*' && |cp| <= 4092 {
      OneStarredEntry(cp, os.glob);
      assert JAVA_CLASSPATH + "" == JAVA_CLASSPATH;
    }
    var cpy := CopyWithPrefix(cp);
    var gcp := Nothing;
    var ptr: nat := |JAVA_CLASSPATH|;
    ghost var k: nat, done := 0, [];
    assert cp[0..] == cp;
    var found, pos := FindSep(cpy, ptr, cp, k, os.Sep());
    while found
      invariant AtEntry(cpy, ptr, gcp, cp, k, done, os)
      invariant found <==> SepAt(cp, k, os.Sep()) < |cp|
      invariant pos - ptr == SepAt(cp, k, os.Sep()) - k
      invariant done == [] ==> HoldsText(cpy[..], 0, JAVA_CLASSPATH + cp) && k == 0
      decreases |cp| - k
    {
      ptr, gcp, k, done := TakeEntry(cpy, ptr, pos, gcp, os, cp, k, done);
      found, pos := FindSep(cpy, ptr, cp, k, os.Sep());
    }
    gcp := TakeLast(cpy, ptr, gcp, os, cp, k, done);
    match gcp
    case Some(g) => return g;
    case Nothing =>
      NothingMeansEmpty(cp, os.Sep());
      HeldText(cpy[..], 0, JAVA_CLASSPATH + cp);
      return Text(cpy[..], 0);
  }

  lemma SeveralParts(t: string, k: nat, sep: char)
    requires k <= |t|
    ensures SepAt(t, k, sep) < |t| ==> |Parts(t, k, sep)| >= 2
    ensures SepAt(t, k, sep) == |t| ==> Parts(t, k, sep) == [t[k..]]
  {
  }

  lemma NothingMeansEmpty(cp: string, sep: char)
    requires Entries(cp, sep) == []
    ensures cp == ""
  {
    SeveralParts(cp, 0, sep);
    assert cp[0..] == cp;
  }

  // ----- What the class path comes to, entry by entry -----

  /** The text up to the first separator, then the parts behind it. */
  lemma FirstPart(t: string, k: nat, e: nat, sep: char)
    requires k <= e <= |t| && (e < |t| ==> t[e] == sep) && forall i :: k <= i < e ==> t[i] != sep
    ensures Parts(t, k, sep) == [t[k..e]] + if e < |t| then Parts(t, e + 1, sep) else []
  {
    SepIs(t, k, e, sep);
    assert t[k..|t|] == t[k..] && [t[k..e]] + [] == [t[k..e]];
  }

  lemma TwoParts(a: string, b: string, sep: char)
    requires sep !in a && sep !in b && b != ""
    ensures Entries(a + [sep] + b, sep) == [a, b]
  {
    var cp := a + [sep] + b;
    assert cp[|a|] == sep && cp[0..|a|] == a && cp[|a| + 1..|cp|] == b;
    assert forall i :: 0 <= i < |a| ==> cp[i] == a[i];
    assert forall i :: |a| < i < |cp| ==> cp[i] == b[i - |a| - 1];
    FirstPart(cp, 0, |a|, sep);
    FirstPart(cp, |a| + 1, |cp|, sep);
    assert Parts(cp, 0, sep) == [a, b];
  }

  /**
   * A class path of two entries, on Unix and on Windows, none of them starred or
   * the second one.
   */
  lemma TwoEntries(a: string, b: string, os: Os)
    requires os.Sep() !in a && os.Sep() !in b && b != "" && (a == "" || a[|a| - 1] != '*')
    ensures os.Unix? ==> Value(a + ":" + b, os) == a + ":" + if b[|b| - 1] == '*' then Expanded(b, os) else b
    ensures os.Windows? ==> Value(a + ";" + b, os) == a + ";" + if b[|b| - 1] == '*' then Expanded(b, os) else b
  {
    TwoParts(a, b, os.Sep());
    ExpandedMore([a], b, os);
    ExpandedMore([], a, os);
    assert [a] + [b] == [a, b] && [] + [a] == [a];
    JoinedMore([Expanded(a, os)], Expanded(b, os), os.Sep());
    assert [Expanded(a, os)] + [Expanded(b, os)] == AllExpanded([a, b], os);
  }

  // ----- When nothing is expanded -----

  ghost predicate NoneStarred(ps: seq<string>) {
    forall i :: 0 <= i < |ps| ==> !Starred(ps[i])
  }

  lemma {:induction false} UnstarredStay(ps: seq<string>, os: Os)
    requires NoneStarred(ps)
    ensures AllExpanded(ps, os) == ps
  {
    if ps != [] {
      var rest := ps[..|ps| - 1];
      UnstarredStay(rest, os);
      assert ps == rest + [ps[|ps| - 1]];
    }
  }

  lemma {:induction false} JoinedFirst(x: string, xs: seq<string>, sep: char)
    requires xs != []
    ensures Joined([x] + xs, sep) == x + [sep] + Joined(xs, sep)
    decreases |xs|
  {
    var last := xs[|xs| - 1];
    var rest := xs[..|xs| - 1];
    assert xs == rest + [last];
    assert [x] + xs == ([x] + rest) + [last];
    JoinedMore([x] + rest, last, sep);
    if rest != [] {
      JoinedMore(rest, last, sep);
      JoinedFirst(x, rest, sep);
    }
  }

  lemma AroundSep(t: string, k: nat, n: nat, sep: char)
    requires k <= n < |t| && t[n] == sep
    ensures t[k..] == t[k..n] + [sep] + t[n + 1..]
  {
  }

  lemma PartInFront(t: string, k: nat, n: nat, sep: char)
    requires k <= n < |t| && n == SepAt(t, k, sep) && Joined(Parts(t, n + 1, sep), sep) == t[n + 1..]
    ensures Joined(Parts(t, k, sep), sep) == t[k..]
  {
    var rest := Parts(t, n + 1, sep);
    assert Parts(t, k, sep) == [t[k..n]] + rest;
    JoinedFirst(t[k..n], rest, sep);
    AroundSep(t, k, n, sep);
  }

  /** Splitting and joining again gives the text back. */
  lemma {:induction false} SplitAndJoin(t: string, k: nat, sep: char)
    requires k <= |t|
    ensures Joined(Parts(t, k, sep), sep) == t[k..]
    decreases |t| - k
  {
    var n := SepAt(t, k, sep);
    if n < |t| {
      SplitAndJoin(t, n + 1, sep);
      PartInFront(t, k, n, sep);
    }
  }

  /** The last part is empty exactly if the text is empty or ends in a separator. */
  lemma {:induction false} LastPart(t: string, k: nat, sep: char)
    requires k <= |t|
    ensures Parts(t, k, sep)[|Parts(t, k, sep)| - 1] == "" <==> k == |t| || t[|t| - 1] == sep
    ensures k < |t| && t[|t| - 1] == sep ==> |Parts(t, k, sep)| > 1
    decreases |t| - k
  {
    var n := SepAt(t, k, sep);
    if n < |t| {
      LastPart(t, n + 1, sep);
    }
  }

  lemma WithoutLastSep(cp: string, sep: char)
    requires cp != "" && cp[|cp| - 1] == sep
    ensures |Joined(Entries(cp, sep), sep)| < |cp|
  {
    var ps := Parts(cp, 0, sep);
    LastPart(cp, 0, sep);
    SplitAndJoin(cp, 0, sep);
    assert ps == Entries(cp, sep) + [ps[|ps| - 1]];
    JoinedMore(Entries(cp, sep), ps[|ps| - 1], sep);
    assert |Joined(ps, sep)| == |cp|;
  }

  lemma WithLastEntry(cp: string, sep: char)
    requires cp == "" || cp[|cp| - 1] != sep
    ensures Joined(Entries(cp, sep), sep) == cp
  {
    LastPart(cp, 0, sep);
    SplitAndJoin(cp, 0, sep);
    assert cp[0..] == cp;
    SeveralParts("", 0, sep);
  }

  /**
   * A class path without starred entries comes back unchanged behind the prefix
   * if and only if it does not end in a separator.
   */
  lemma UnchangedIff(cp: string, os: Os)
    requires NoneStarred(Parts(cp, 0, os.Sep()))
    ensures Joined(AllExpanded(Entries(cp, os.Sep()), os), os.Sep()) == cp <==> cp == "" || cp[|cp| - 1] != os.Sep()
  {
    UnstarredStay(Entries(cp, os.Sep()), os);
    if cp != "" && cp[|cp| - 1] == os.Sep() {
      WithoutLastSep(cp, os.Sep());
    } else {
      WithLastEntry(cp, os.Sep());
    }
  }

  /** A path that ends in a separator loses it. */
  lemma SeparatorAtTheEnd(cp: string, os: Os)
    requires cp == ['a', os.Sep()]
    ensures Joined(AllExpanded(Entries(cp, os.Sep()), os), os.Sep()) != cp
  {
    var sep := os.Sep();
    assert SepAt(cp, 0, sep) == 1 && SepAt(cp, 2, sep) == 2;
    assert Parts(cp, 0, sep) == [cp[0..1]] + Parts(cp, 2, sep) && Parts(cp, 2, sep) == [cp[2..]];
    assert cp[0..1] == ['a'] && cp[2..] == "";
    UnchangedIff(cp, os);
  }

  // ----- Where Windows looks and what it returns -----

  predicate EndsFolder(c: char) {
    c == '\\' || c == '/' || c == ':'
  }

  /** The folder part of a path, with what ends it. */
  function Folder(path: string): (r: string)
    ensures r <= path
  {
    if path == "" || EndsFolder(path[|path| - 1]) then path else Folder(path[..|path| - 1])
  }

  /**
   * The files that Windows finds for an entry lie in the entry's folder. The paths
   * that replace the entry lead there if and only if its asterisk stands directly
   * behind the folder: anything between them would be put before every name.
   */
  lemma WindowsPathsRightIff(part: string, os: Os)
    requires os.Windows? && Starred(part) && os.find(part + ".jar").Found?
    ensures
      var names := os.find(part + ".jar").Names();
      os.Paths(part) == InFolder(Folder(part), names) <==> |part| == 1 || EndsFolder(part[|part| - 2])
  {
    var dir, names := part[..|part| - 1], os.find(part + ".jar").Names();
    assert Folder(part) == Folder(dir);
    if |part| > 1 && !EndsFolder(part[|part| - 2]) {
      assert |Folder(dir)| < |dir|;
      assert os.Paths(part)[0] == dir + names[0] && InFolder(Folder(part), names)[0] == Folder(part) + names[0];
      assert |dir + names[0]| != |Folder(part) + names[0]|;
    } else {
      assert Folder(dir) == dir;
    }
  }

  /** "lib/a*" finds lib/ab.jar and returns lib/aab.jar. */
  lemma AsteriskBehindName(os: Os)
    requires os.Windows? && os.find("lib/a*.jar") == Found("ab.jar", [])
    ensures os.Paths("lib/a*") == ["lib/aab.jar"]
  {
    assert "lib/a*" + ".jar" == "lib/a*.jar" && "lib/a*"[..5] == "lib/a" && "lib/a" + "ab.jar" == "lib/aab.jar";
  }
}
