/**
 * Creating a directory with its missing parents (mkdir0, mkdir1 and mkdir2 of
 * jsvc-unix.c). The path buffer is cut at its last slash and mended again at
 * every level. The file system belongs to other code: mkdir is given by what it
 * does to it. Slashes may be doubled and may end a path.
 */
module MakeDirs {
  import opened CStrings

  datatype Code = Ok | EExist | ENoEnt | ENotDir | EAcces

  // ----- What a path names -----

  /** strrchr(p, '/') as an index, or -1. */
  function LastSlash(p: string): (k: int)
    ensures -1 <= k < |p| && (k >= 0 ==> p[k] == '/')
    ensures forall i :: k < i < |p| ==> p[i] != '/'
  {
    if p == "" then -1
    else if p[|p| - 1] == '/' then |p| - 1
    else LastSlash(p[..|p| - 1])
  }

  /** The names on the way, from the root or from the working directory. */
  datatype Place = Place(absolute: bool, names: seq<string>)

  /** The names between the slashes of a path; empty ones do not count. */
  function Names(p: string): seq<string>
    decreases |p|
  {
    var k := LastSlash(p);
    if p == "" then []
    else if k == |p| - 1 then Names(p[..k])
    else (if k < 0 then [] else Names(p[..k])) + [p[k + 1..]]
  }

  function PlaceOf(p: string): Place {
    Place(p != "" && p[0] == '/', Names(p))
  }

  /** Where the place lies; the root and the working directory lie in themselves. */
  function Parent(c: Place): Place {
    if c.names == [] then c else c.(names := c.names[..|c.names| - 1])
  }

  /** A slash at k with no name behind it. */
  predicate EmptyBehind(p: string, k: nat)
    requires k < |p|
  {
    p[k] == '/' && (k + 1 == |p| || p[k + 1] == '/')
  }

  /** The place and all that it lies in. */
  function Lineage(c: Place): set<Place>
    decreases |c.names|
  {
    {c} + if c.names == [] then {} else Lineage(Parent(c))
  }

  lemma {:induction false} LineageIsShorter(c: Place)
    ensures c in Lineage(c) && forall a :: a in Lineage(c) ==> |a.names| <= |c.names|
    decreases |c.names|
  {
    if c.names != [] {
      LineageIsShorter(Parent(c));
    }
  }

  /** What is left when a path is cut at its last slash: the parent, or the place itself if the slash ends it. */
  lemma CutNames(p: string)
    requires LastSlash(p) > 0
    ensures PlaceOf(p[..LastSlash(p)]) == if LastSlash(p) == |p| - 1 then PlaceOf(p) else Parent(PlaceOf(p))
  {
    var k := LastSlash(p);
    var front := Names(p[..k]);
    assert p[..k][0] == p[0];
    if k < |p| - 1 {
      assert Names(p) == front + [p[k + 1..]];
      assert (front + [p[k + 1..]])[..|front|] == front;
    }
  }

  /** Without a slash behind the first character there is at most one name. */
  lemma OneName(p: string)
    requires LastSlash(p) <= 0
    ensures |Names(p)| <= 1
  {
    if LastSlash(p) == 0 {
      assert Names(p[..0]) == [];
    }
  }

  /** A place named by the front of a path, up to some slash, is on the way. */
  lemma {:induction false} InLineage(p: string, k: nat)
    requires 0 < k < |p| && p[k] == '/'
    ensures PlaceOf(p[..k]) in Lineage(PlaceOf(p))
    decreases |p|
  {
    var l := LastSlash(p);
    CutNames(p);
    LineageIsShorter(PlaceOf(p));
    LineageIsShorter(PlaceOf(p[..l]));
    if k < l {
      InLineage(p[..l], k);
      assert p[..l][..k] == p[..k];
    }
  }

  /** A name behind the last slash. */
  lemma NameBehind(p: string, k: nat)
    requires k < |p| - 1 && p[k] == '/' && '/' !in p[k + 1..]
    ensures Names(p) == Names(p[..k]) + [p[k + 1..]]
  {
    assert forall i :: k < i < |p| ==> p[i] == p[k + 1..][i - k - 1];
    assert LastSlash(p) == k;
  }

  lemma FirstName(p: string)
    requires p != "" && '/' !in p
    ensures Names(p) == [p]
  {
    assert LastSlash(p) == -1 && p[0..] == p;
  }

  /** Slashes behind a path do not change what it names. */
  lemma SlashBehind(p: string)
    ensures Names("") == [] && Names(p + "/") == Names(p)
  {
    var q := p + "/";
    assert q[|p|] == '/' && q[..|p|] == p;
    assert LastSlash(q) == |p|;
  }

  lemma ParentIs(absolute: bool, names: seq<string>, n: string)
    ensures Parent(Place(absolute, names + [n])) == Place(absolute, names)
    ensures Parent(Place(absolute, [])) == Place(absolute, [])
  {
    assert (names + [n])[..|names|] == names;
  }

  /** The lineage of a place are the places that its names begin with. */
  lemma {:induction false} LineageIs(c: Place, a: Place)
    ensures a in Lineage(c) <==> a.absolute == c.absolute && a.names <= c.names
    decreases |c.names|
  {
    if c.names != [] {
      var up := c.names[..|c.names| - 1];
      LineageIs(Parent(c), a);
      assert c.names == up + [c.names[|up|]];
      assert a.names <= c.names <==> a.names == c.names || a.names <= up;
    }
  }

  class FileSystem {
    var dirs: set<Place>
    const files: set<Place>
    /** Where nothing may be created. */
    const forbidden: set<Place>

    /** What exists lies in a directory; the root and the working directory exist. */
    ghost predicate Valid()
      reads this
    {
      && dirs !! files
      && Place(true, []) in dirs && Place(false, []) in dirs
      && (forall c :: c in dirs || c in files ==> Parent(c) in dirs)
    }

    /** What mkdir says. */
    function Answer(ds: set<Place>, p: string): Code {
      var c := PlaceOf(p);
      if p == "" then ENoEnt
      else if c in ds || c in files then EExist
      else if Lineage(c) * files != {} then ENotDir
      else if Parent(c) !in ds then ENoEnt
      else if c in forbidden then EAcces
      else Ok
    }

    /** And what is there behind it. */
    function After(ds: set<Place>, p: string): set<Place> {
      ds + if Answer(ds, p) == Ok then {PlaceOf(p)} else {}
    }

    /** mkdir0: zero, or the error number of mkdir. */
    method MkDir0(p: string) returns (rc: Code)
      requires Valid()
      modifies this
      ensures Valid()
      ensures rc == Answer(old(dirs), p)
      ensures dirs == After(old(dirs), p)
    {
      rc := Answer(dirs, p);
      if rc == Ok {
        dirs := dirs + {PlaceOf(p)};
      }
    }

    ghost predicate Exists(ds: set<Place>, c: Place) {
      c in ds || c in files
    }

    /** Nothing missing on the way to the place is a file or forbidden. */
    ghost predicate Makeable(ds: set<Place>, c: Place) {
      forall a :: a in Lineage(c) && a !in ds ==> a !in files && a !in forbidden
    }

    /** A slash that ends the path or has another one behind it stands behind a place whose parent exists. */
    ghost predicate SlashesFit(ds: set<Place>, p: string) {
      forall k :: 0 <= k < |p| && EmptyBehind(p, k) ==> Parent(PlaceOf(p[..k])) in ds
    }

    /** What mkdir1 can do: the place exists, or all that is missing can be made and the slashes fit. */
    ghost predicate CanMake(ds: set<Place>, p: string) {
      p != "" && (Exists(ds, PlaceOf(p)) || (Makeable(ds, PlaceOf(p)) && SlashesFit(ds, p)))
    }

    /** The parents of a directory are directories. */
    lemma {:induction false} LineageExists(c: Place)
      requires Valid() && c in dirs
      ensures Lineage(c) <= dirs
      decreases |c.names|
    {
      if c.names != [] {
        LineageExists(Parent(c));
      }
    }

    lemma InItself(p: string)
      requires Valid()
      ensures PlaceOf(p) in Lineage(PlaceOf(p))
      ensures PlaceOf(p) in dirs ==> Lineage(PlaceOf(p)) <= dirs
    {
      LineageIsShorter(PlaceOf(p));
      if PlaceOf(p) in dirs {
        LineageExists(PlaceOf(p));
      }
    }

    /** All that is missing is the place itself. */
    lemma OnlyItself(c: Place)
      requires Valid() && !Exists(dirs, c) && Parent(c) in dirs
      ensures Makeable(dirs, c) <==> c !in forbidden
      ensures dirs + {c} == dirs + Lineage(c)
    {
      LineageIsShorter(c);
      LineageExists(Parent(c));
    }

    /** The place is missing, and more on the way to it. */
    lemma MoreThanItself(ds: set<Place>, c: Place)
      requires c.names != [] && !Exists(ds, c)
      ensures Makeable(ds, c) <==> Makeable(ds, Parent(c)) && c !in forbidden
      ensures Lineage(c) == {c} + Lineage(Parent(c)) && c !in Lineage(Parent(c)) && Parent(c) in Lineage(Parent(c))
    {
      LineageIsShorter(Parent(c));
    }

    /** Behind a place whose parent exists slashes never matter. */
    lemma SlashesDoNotMatter(p: string)
      requires Valid() && Parent(PlaceOf(p)) in dirs
      ensures SlashesFit(dirs, p)
    {
      var c := PlaceOf(p);
      LineageExists(Parent(c));
      forall k | 0 <= k < |p| && EmptyBehind(p, k)
        ensures Parent(PlaceOf(p[..k])) in dirs
      {
        if k > 0 {
          InLineage(p, k);
        }
      }
    }

    /** A file on the way. */
    lemma Blocked(ds: set<Place>, p: string)
      requires ds !! files && !Exists(ds, PlaceOf(p)) && Lineage(PlaceOf(p)) * files != {}
      ensures !CanMake(ds, p)
    {
      var a :| a in Lineage(PlaceOf(p)) * files;
      assert a !in ds;
    }

    /** The parent exists, and no file is on the way. */
    lemma ParentExists(p: string)
      requires Valid() && p != "" && !Exists(dirs, PlaceOf(p)) && Parent(PlaceOf(p)) in dirs
      ensures CanMake(dirs, p) <==> PlaceOf(p) !in forbidden
      ensures dirs + {PlaceOf(p)} == dirs + Lineage(PlaceOf(p))
    {
      OnlyItself(PlaceOf(p));
      SlashesDoNotMatter(p);
    }

    /** The parent is missing, and no file is on the way. */
    lemma ParentMissing(p: string)
      requires Valid() && p != "" && Parent(PlaceOf(p)) !in dirs && Lineage(PlaceOf(p)) * files == {}
      ensures LastSlash(p) > 0 && !Exists(dirs, Parent(PlaceOf(p)))
    {
      HasParents(p);
      if PlaceOf(p).names != [] {
        LineageIsShorter(Parent(PlaceOf(p)));
      }
    }

    /** What the first mkdir decides. */
    lemma FirstTry(p: string)
      requires Valid()
      ensures
        var c, rc := PlaceOf(p), Answer(dirs, p);
        if p == "" then rc == ENoEnt && !CanMake(dirs, p)
        else if Exists(dirs, c) then rc == EExist && CanMake(dirs, p)
        else if Lineage(c) * files != {} then rc == ENotDir && !CanMake(dirs, p)
        else if Parent(c) in dirs then
          && rc == (if c in forbidden then EAcces else Ok)
          && (CanMake(dirs, p) <==> rc == Ok)
          && dirs + {c} == dirs + Lineage(c)
        else rc == ENoEnt && LastSlash(p) > 0 && !Exists(dirs, Parent(c))
    {
      var c := PlaceOf(p);
      if p == "" || Exists(dirs, c) {
      } else if Lineage(c) * files != {} {
        Blocked(dirs, p);
      } else if Parent(c) in dirs {
        ParentExists(p);
      } else {
        ParentMissing(p);
      }
    }

    /** What is left to decide about a path whose parent is missing too. */
    lemma SecondTry(ds: set<Place>, p: string)
      requires LastSlash(p) > 0 && !Exists(ds, PlaceOf(p)) && !Exists(ds, Parent(PlaceOf(p)))
      ensures
        var k := LastSlash(p);
        if k == |p| - 1 then !CanMake(ds, p) && PlaceOf(p[..k]) == PlaceOf(p)
        else
          && (CanMake(ds, p) <==> CanMake(ds, p[..k]) && PlaceOf(p) !in forbidden)
          && PlaceOf(p[..k]) == Parent(PlaceOf(p))
    {
      var k, c := LastSlash(p), PlaceOf(p);
      CutNames(p);
      if k == |p| - 1 {
        assert EmptyBehind(p, k);
      } else {
        MoreThanItself(ds, c);
        SameSlashes(ds, p);
      }
    }

    /** A slash before the last one, seen in the path as it is cut. */
    lemma SameSlash(p: string, k: nat, i: nat)
      requires i < k < |p| && p[k] == '/'
      ensures (EmptyBehind(p, i) <==> EmptyBehind(p[..k], i)) && p[..k][..i] == p[..i]
    {
    }

    /** A single slash in front of the last name does not matter. */
    lemma SameSlashes(ds: set<Place>, p: string)
      requires 0 < LastSlash(p) < |p| - 1
      ensures SlashesFit(ds, p) <==> SlashesFit(ds, p[..LastSlash(p)])
    {
      var k := LastSlash(p);
      assert forall i :: k <= i < |p| ==> !EmptyBehind(p, i);
      forall i | 0 <= i < k
        ensures (EmptyBehind(p, i) <==> EmptyBehind(p[..k], i)) && p[..k][..i] == p[..i]
      {
        SameSlash(p, k, i);
      }
    }

    lemma HasParents(p: string)
      requires Valid() && p != "" && Parent(PlaceOf(p)) !in dirs
      ensures LastSlash(p) > 0
    {
      if LastSlash(p) <= 0 {
        OneName(p);
      }
    }

    /**
     * What mkdir1 promises: zero if and only if the path exists, or all that is
     * missing on the way can be made and the slashes fit; then it has made exactly
     * that. If it fails no more than the lineage has been made.
     */
    ghost predicate Made(ds: set<Place>, ds': set<Place>, rc: Code, p: string) {
      && (rc == Ok <==> CanMake(ds, p))
      && (rc == Ok ==> ds' == ds + if PlaceOf(p) in files then {} else Lineage(PlaceOf(p)))
      && ds <= ds' <= ds + Lineage(PlaceOf(p))
    }

    /** The same with its conditions written out. */
    lemma MadeMeans(ds: set<Place>, ds': set<Place>, rc: Code, p: string)
      requires Made(ds, ds', rc, p)
      ensures rc == Ok <==>
        && p != ""
        && (PlaceOf(p) in ds || PlaceOf(p) in files || (Makeable(ds, PlaceOf(p)) && SlashesFit(ds, p)))
      ensures rc == Ok && PlaceOf(p) in files ==> ds' == ds
      ensures rc == Ok && PlaceOf(p) !in files ==> ds' == ds + Lineage(PlaceOf(p))
      ensures ds <= ds' <= ds + Lineage(PlaceOf(p))
    {
    }

    /** Every place on the way, named by the first n names, is a directory or may become one. */
    lemma MakeableMeans(ds: set<Place>, c: Place)
      ensures Makeable(ds, c) <==>
        forall n :: 0 <= n <= |c.names| ==>
          var a := Place(c.absolute, c.names[..n]);
          a in ds || (a !in files && a !in forbidden)
    {
      forall n | 0 <= n <= |c.names|
        ensures Place(c.absolute, c.names[..n]) in Lineage(c)
      {
        LineageIs(c, Place(c.absolute, c.names[..n]));
      }
      forall a | a in Lineage(c)
        ensures |a.names| <= |c.names| && a == Place(c.absolute, c.names[..|a.names|])
      {
        LineageIs(c, a);
      }
    }

    lemma SlashesMean(ds: set<Place>, p: string)
      ensures SlashesFit(ds, p) <==>
        forall k :: 0 <= k < |p| && p[k] == '/' && (k + 1 == |p| || p[k + 1] == '/') ==> Parent(PlaceOf(p[..k])) in ds
    {
      forall k | 0 <= k < |p|
        ensures EmptyBehind(p, k) <==> p[k] == '/' && (k + 1 == |p| || p[k + 1] == '/')
      {
      }
    }

    lemma NothingToAdd(ds: set<Place>, c: Place)
      requires Lineage(c) <= ds
      ensures ds == ds + Lineage(c)
    {
    }

    lemma MadeIfExists(p: string)
      requires Valid() && Answer(dirs, p) == EExist
      ensures Made(dirs, dirs, Ok, p)
    {
      assert CanMake(dirs, p);
      if PlaceOf(p) in files {
        assert dirs + {} == dirs;
      } else {
        LineageExists(PlaceOf(p));
        NothingToAdd(dirs, PlaceOf(p));
      }
    }

    lemma MadeOrRefused(p: string)
      requires Valid() && Answer(dirs, p) != EExist && Answer(dirs, p) != ENoEnt
      ensures Made(dirs, After(dirs, p), Answer(dirs, p), p)
    {
      FirstTry(p);
      InItself(p);
    }

    /** Where the first mkdir is all there is to do. */
    lemma MadeAtOnce(p: string)
      requires Valid()
      ensures
        var rc, ds := Answer(dirs, p), After(dirs, p);
        if rc == ENoEnt then ds == dirs else Made(dirs, ds, if rc == EExist then Ok else rc, p)
    {
      if Answer(dirs, p) == EExist {
        MadeIfExists(p);
        assert dirs + {} == dirs;
      } else if Answer(dirs, p) != ENoEnt {
        MadeOrRefused(p);
      }
    }

    /** A slash that ends the path: the attempt on the path without it, and a mkdir that finds what that has made. */
    lemma MadeWithoutSlash(ds: set<Place>, ds': set<Place>, rc: Code, p: string)
      requires LastSlash(p) == |p| - 1 > 0 && !CanMake(ds, p) && PlaceOf(p[..LastSlash(p)]) == PlaceOf(p)
      requires PlaceOf(p) !in files && Made(ds, ds', rc, p[..LastSlash(p)])
      ensures rc != Ok ==> Made(ds, ds', rc, p)
      ensures rc == Ok ==> After(ds', p) == ds' && Made(ds, ds', Answer(ds', p), p)
    {
      LineageIsShorter(PlaceOf(p));
    }

    /** The mkdir of a place whose parent has just been made. */
    lemma AnswerBehindParent(ds: set<Place>, p: string)
      requires p != "" && PlaceOf(p).names != [] && !Exists(ds, PlaceOf(p)) && Lineage(PlaceOf(p)) * files == {}
      ensures
        var c, ds' := PlaceOf(p), ds + Lineage(Parent(PlaceOf(p)));
        && Answer(ds', p) == (if c in forbidden then EAcces else Ok)
        && ds + Lineage(Parent(c)) <= ds + Lineage(c) && ds' + {c} == ds + Lineage(c)
    {
      MoreThanItself(ds, PlaceOf(p));
    }

    /** The attempt on the parent, and a mkdir of the place itself. */
    lemma MadeBehindParent(ds: set<Place>, ds': set<Place>, rc: Code, p: string)
      requires 0 < LastSlash(p) < |p| - 1 && !Exists(ds, PlaceOf(p)) && Lineage(PlaceOf(p)) * files == {}
      requires
        var q, c := p[..LastSlash(p)], PlaceOf(p);
        && PlaceOf(q) == Parent(c) && !Exists(ds, Parent(c))
        && (CanMake(ds, p) <==> CanMake(ds, q) && c !in forbidden)
        && Made(ds, ds', rc, q)
      ensures
        if rc == Ok then Made(ds, After(ds', p), Answer(ds', p), p)
        else Made(ds, ds', rc, p)
    {
      var c := PlaceOf(p);
      MoreThanItself(ds, c);
      if rc == Ok {
        assert Parent(c) !in files && ds' == ds + Lineage(Parent(c));
        AnswerBehindParent(ds, p);
      }
    }

    /** After the attempt on the path as it is cut, with the second mkdir if that went well. */
    lemma MadeAfterCut(ds: set<Place>, ds': set<Place>, rc: Code, p: string)
      requires LastSlash(p) > 0 && !Exists(ds, PlaceOf(p)) && !Exists(ds, Parent(PlaceOf(p)))
      requires Lineage(PlaceOf(p)) * files == {}
      requires Made(ds, ds', rc, p[..LastSlash(p)])
      ensures
        if rc == Ok then Made(ds, After(ds', p), Answer(ds', p), p)
        else Made(ds, ds', rc, p)
    {
      SecondTry(ds, p);
      if LastSlash(p) == |p| - 1 {
        MadeWithoutSlash(ds, ds', rc, p);
      } else {
        MadeBehindParent(ds, ds', rc, p);
      }
    }

    /** *pos = NUL: the buffer then holds the path up to there. */
    method Cut(name: array<char>, pos: nat, ghost p: string)
      requires HoldsText(name[..], 0, p) && pos < |p|
      modifies name
      ensures HoldsText(name[..], 0, p[..pos])
      ensures name[..] == old(name[..])[pos := NUL]
    {
      assert forall i :: 0 <= i < pos ==> name[..][i] == p[i] && name[..][i] != NUL;
      name[pos] := NUL;
    }

    /** *pos = '/': the buffer is as it was before it was cut. */
    method Mend(name: array<char>, pos: nat, ghost whole: seq<char>)
      requires pos < name.Length == |whole| && whole[pos] == '/'
      requires name[..] == whole || name[..] == whole[pos := NUL]
      modifies name
      ensures name[..] == whole
    {
      name[pos] := '/';
      assert whole[pos := NUL][pos := '/'] == whole && whole[pos := '/'] == whole;
    }

    /** mkdir1. The caller's buffer is always as it was. */
    method MkDir1(name: array<char>, ghost p: string) returns (rc: Code)
      requires Valid() && HoldsText(name[..], 0, p)
      modifies this, name
      ensures Valid() && Made(old(dirs), dirs, rc, p)
      ensures name[..] == old(name[..])
      decreases |p|, 1
    {
      HeldText(name[..], 0, p);
      MadeAtOnce(p);
      rc := MkDir0(Text(name[..], 0));
      if rc == EExist {
        return Ok;
      }
      if rc == ENoEnt {
        rc := WithParents(name, p);
      }
    }

    /** The branch for a missing parent. */
    method WithParents(name: array<char>, ghost p: string) returns (rc: Code)
      requires Valid() && HoldsText(name[..], 0, p) && Answer(dirs, p) == ENoEnt
      modifies this, name
      ensures Valid() && Made(old(dirs), dirs, rc, p)
      ensures name[..] == old(name[..])
      decreases |p|, 0
    {
      ghost var whole, ds := name[..], dirs;
      HeldText(whole, 0, p);
      FirstTry(p);
      rc := ENoEnt;
      var pos := LastSlash(Text(name[..], 0));
      if pos >= 0 {
        Cut(name, pos, p);
        if name[0] != NUL {
          rc := MkDir1(name, p[..pos]);
          MadeAfterCut(ds, dirs, rc, p);
          if rc == Ok {
            Mend(name, pos, whole);
            rc := MkDir0(Text(name[..], 0));
          }
        }
        Mend(name, pos, whole);
      }
    }

    /** mkdir2: makes what leads to the path, working on a copy of it. */
    method MkDir2(name: array<char>, ghost p: string) returns (rc: Code)
      requires Valid() && HoldsText(name[..], 0, p)
      modifies this
      ensures Valid()
      ensures
        if LastSlash(p) <= 0 then rc == Ok && dirs == old(dirs)
        else Made(old(dirs), dirs, rc, p[..LastSlash(p)])
    {
      HeldText(name[..], 0, p);
      var dir := new char[name.Length](i requires 0 <= i < name.Length reads name => name[i]);
      assert dir[..] == name[..];
      rc := Ok;
      var pos := LastSlash(Text(dir[..], 0));
      if pos >= 0 {
        Cut(dir, pos, p);
        if dir[0] != NUL {
          rc := MkDir1(dir, p[..pos]);
        }
      }
    }

    /** Where nothing but the root and the working directory exists, "a/b" can be made, "a/b/" cannot. */
    lemma SlashAtTheEnd(p: string, q: string)
      requires Valid() && dirs == {Place(true, []), Place(false, [])} && files == {} && forbidden == {}
      requires p == ['a', '/', 'b'] && q == p + ['/']
      ensures CanMake(dirs, p) && !CanMake(dirs, q)
    {
      FirstName(p[..1]);
      NameBehind(p, 1);
      CutNames(q);
      assert p[..1] == ['a'] && p[2..] == ['b'] && Names(p) == [['a']] + [['b']];
      assert q[..3] == p && EmptyBehind(q, 3);
      assert !EmptyBehind(p, 0) && !EmptyBehind(p, 1) && !EmptyBehind(p, 2);
    }
  }
}
