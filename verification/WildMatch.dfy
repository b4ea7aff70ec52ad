/** The recursive wildcard matcher of utils.c (apxStrMatchA and apxStrMatchW). */
module WildMatch {
  import opened CStrings

  /** The matcher's result: 0, 1, -1, or a read behind the string's terminator. */
  datatype Outcome = Match | NoMatch | Abort | Overrun

  /** How characters are compared: as they are, or through CharLower. */
  datatype Folding = Exact | Lower(lower: char -> char) {
    function Key(c: char): char {
      match this
      case Exact => c
      case Lower(f) => f(c)
    }

    /** Lower-casing neither produces nor removes the terminator. */
    ghost predicate KeepsNul() {
      forall c :: Key(c) == Key(NUL) <==> c == NUL
    }
  }

  // ----- What a pattern means -----

  /**
   * The text from i on matches the pattern characters from k up to e: '*' stands
   * for any text, '?' for any one character, every other character for itself.
   */
  predicate Glob(s: string, i: nat, p: string, k: nat, e: nat, f: Folding)
    requires i <= |s| && k <= e <= |p|
    decreases e - k, |s| - i
  {
    if k == e then i == |s|
    else if p[k] == '*' then
      Glob(s, i, p, k + 1, e, f) || (i < |s| && Glob(s, i + 1, p, k, e, f))
    else
      && i < |s|
      && (p[k] == '?' || f.Key(s[i]) == f.Key(p[k]))
      && Glob(s, i + 1, p, k + 1, e, f)
  }

  predicate Matches(s: string, p: string, f: Folding) {
    Glob(s, 0, p, 0, |p|, f)
  }

  /** Pattern characters that are no '*' take one character each: any one, or the same one. */
  lemma {:induction false} GlobExactly(s: string, i: nat, p: string, k: nat, m: nat, e: nat)
    requires i <= |s| && k <= m <= e <= |p| && forall n :: k <= n < m ==> p[n] != '*'
    ensures Glob(s, i, p, k, e, Exact) <==>
      (&& i + (m - k) <= |s|
       && (forall n :: k <= n < m ==> p[n] == '?' || s[i + n - k] == p[n])
       && Glob(s, i + m - k, p, m, e, Exact))
    decreases m - k
  {
    if k < m && i < |s| {
      GlobExactly(s, i + 1, p, k + 1, m, e);
    }
  }

  /** The same when case is ignored: low is what a character is lowered to. */
  lemma {:induction false} GlobLowered(s: string, i: nat, p: string, k: nat, m: nat, e: nat, low: char -> char)
    requires i <= |s| && k <= m <= e <= |p| && forall n :: k <= n < m ==> p[n] != '*'
    ensures Glob(s, i, p, k, e, Lower(low)) <==>
      (&& i + (m - k) <= |s|
       && (forall n :: k <= n < m ==> p[n] == '?' || low(s[i + n - k]) == low(p[n]))
       && Glob(s, i + m - k, p, m, e, Lower(low)))
    decreases m - k
  {
    if k < m && i < |s| {
      GlobLowered(s, i + 1, p, k + 1, m, e, low);
    }
  }

  ghost predicate SomeSuffix(s: string, i: nat, p: string, k: nat, e: nat, f: Folding)
    requires i <= |s| && k <= e <= |p|
  {
    exists j :: i <= j <= |s| && Glob(s, j, p, k, e, f)
  }

  lemma {:induction false} StarIsSomeSuffix(s: string, i: nat, p: string, k: nat, e: nat, f: Folding)
    requires i <= |s| && k < e <= |p| && p[k] == '*'
    ensures Glob(s, i, p, k, e, f) <==> SomeSuffix(s, i, p, k + 1, e, f)
    decreases |s| - i
  {
    if i < |s| {
      StarIsSomeSuffix(s, i + 1, p, k, e, f);
    }
  }

  lemma SuffixOfStar(s: string, i: nat, p: string, k: nat, e: nat, f: Folding)
    requires i <= |s| && k < e <= |p| && p[k] == '*'
    requires SomeSuffix(s, i, p, k, e, f)
    ensures Glob(s, i, p, k, e, f)
  {
    var j :| i <= j <= |s| && Glob(s, j, p, k, e, f);
    StarIsSomeSuffix(s, j, p, k, e, f);
    StarIsSomeSuffix(s, i, p, k, e, f);
  }

  // ----- What the code computes -----

  function SkipStars(p: string, k: nat): (q: nat)
    requires k <= |p|
    ensures k <= q <= |p| && (q == |p| || p[q] != '*')
    ensures forall n :: k <= n < q ==> p[n] == '*'
    decreases |p| - k
  {
    if k < |p| && p[k] == '*' then SkipStars(p, k + 1) else k
  }

  /** One call whose pointers have reached string index i and pattern index k. */
  function Run(s: string, i: nat, p: string, k: nat, f: Folding): Outcome
    requires i <= |s| && k <= |p|
    decreases |p| - k, |s| - i, 0
  {
    if k == |p| then if i == |s| then Match else NoMatch
    else if p[k] == '*' then
      var q := SkipStars(p, k);
      if q == |p| then Match else Try(s, i, p, q, f)
    else if p[k] == '?' then
      if i == |s| then Beyond(p, k + 1) else Run(s, i + 1, p, k + 1, f)
    else if i == |s| || f.Key(s[i]) != f.Key(p[k]) then NoMatch
    else Run(s, i + 1, p, k + 1, f)
  }

  /** The retry loop behind a '*': every non-empty suffix, first to last. */
  function Try(s: string, i: nat, p: string, q: nat, f: Folding): Outcome
    requires i <= |s| && q <= |p|
    decreases |p| - q, |s| - i, 1
  {
    if i == |s| then Abort
    else
      var rc := Run(s, i, p, q, f);
      if rc != NoMatch then rc else Try(s, i + 1, p, q, f)
  }

  /** A '?' has stepped over the terminator: the next character read is outside. */
  function Beyond(p: string, k: nat): Outcome
    requires k <= |p|
    decreases |p| - k
  {
    if k == |p| then Overrun
    else if p[k] == '*' then if SkipStars(p, k) == |p| then Match else Overrun
    else if p[k] == '?' then Beyond(p, k + 1)
    else Overrun
  }

  /** A character of a C string; index |s| is the terminator. */
  function At(s: CText, i: nat): char
    requires i <= |s|
    ensures At(s, i) == NUL <==> i == |s|
  {
    if i < |s| then
      assert s[i] in s;
      s[i]
    else NUL
  }

  /**
   * The matcher. so and po are where the two pointers point; x and y count
   * from there as in the source. The source's test at the head of the loop
   * looks at the pattern through the string's index, so it is never true.
   */
  method StrMatch(s: CText, so: nat, p: CText, po: nat, f: Folding) returns (rc: Outcome)
    requires so <= |s| && po <= |p| && f.KeepsNul()
    ensures rc == Run(s, so, p, po, f)
    decreases |p| - po
  {
    ghost var answer := Run(s, so, p, po, f);
    var x, y := 0, 0;
    while At(p, po + y) != NUL
      invariant x == y && po + y <= |p|
      invariant so + x <= |s| ==> answer == Run(s, so + x, p, po + y, f)
      invariant so + x > |s| ==> answer == Beyond(p, po + y)
      decreases |p| - po - y
    {
      if At(p, po + x) == NUL {
        assert false;
      }
      if At(p, po + y) == '*' {
        ghost var q := SkipStars(p, po + y);
        y := y + 1;
        while At(p, po + y) == '*'
          invariant po + y <= |p| && x < y && SkipStars(p, po + y) == q
          decreases |p| - po - y
        {
          y := y + 1;
        }
        if At(p, po + y) == NUL {
          return Match;
        }
        if so + x > |s| {
          return Overrun;
        }
        while At(s, so + x) != NUL
          invariant so + x <= |s| && po + y == q
          invariant answer == Try(s, so + x, p, q, f)
          decreases |s| - so - x
        {
          rc := StrMatch(s, so + x, p, po + y, f);
          x := x + 1;
          if rc != NoMatch {
            return rc;
          }
        }
        return Abort;
      } else if At(p, po + y) != '?' {
        if so + x > |s| {
          return Overrun;
        }
        if f.Key(At(s, so + x)) != f.Key(At(p, po + y)) {
          return NoMatch;
        }
      }
      y, x := y + 1, x + 1;
    }
    if so + x > |s| {
      return Overrun;
    }
    rc := if At(s, so + x) != NUL then NoMatch else Match;
  }

  // ----- The code against the meaning -----

  /**
   * For every string and every pattern: a string that matches is reported as a
   * match, and while some later suffix can still match the answer is never
   * Abort, so the retries that an Abort cuts off could not have succeeded.
   */
  lemma {:induction false} NoMatchIsLost(s: string, i: nat, p: string, k: nat, f: Folding)
    requires i <= |s| && k <= |p|
    ensures Glob(s, i, p, k, |p|, f) ==> Run(s, i, p, k, f) == Match
    ensures SomeSuffix(s, i, p, k, |p|, f) && !Glob(s, i, p, k, |p|, f) ==> Run(s, i, p, k, f) == NoMatch
    decreases |p| - k, |s| - i, 0
  {
    if k < |p| && p[k] == '*' {
      StarsAreOneStar(s, i, p, k, |p|, f);
      if SomeSuffix(s, i, p, k, |p|, f) {
        SuffixOfStar(s, i, p, k, |p|, f);
        if SkipStars(p, k) < |p| {
          TryFindsTheSuffix(s, i, p, SkipStars(p, k), f);
        }
      }
    } else if k < |p| && i < |s| {
      NoMatchIsLost(s, i + 1, p, k + 1, f);
      if SomeSuffix(s, i, p, k, |p|, f) {
        var j :| i <= j <= |s| && Glob(s, j, p, k, |p|, f);
        assert Glob(s, j + 1, p, k + 1, |p|, f);
      }
    }
  }

  lemma {:induction false} TryFindsTheSuffix(s: string, i: nat, p: string, q: nat, f: Folding)
    requires i <= |s| && q < |p| && p[q] != '*'
    requires SomeSuffix(s, i, p, q, |p|, f)
    ensures Try(s, i, p, q, f) == Match
    decreases |p| - q, |s| - i, 1
  {
    NoMatchIsLost(s, i, p, q, f);
    if !Glob(s, i, p, q, |p|, f) {
      TryFindsTheSuffix(s, i + 1, p, q, f);
    }
  }

  /** A run of stars means what one star means. */
  lemma {:induction false} StarsAreOneStar(s: string, i: nat, p: string, k: nat, e: nat, f: Folding)
    requires i <= |s| && k < e <= |p| && p[k] == '*' && SkipStars(p, k) <= e
    ensures Glob(s, i, p, k, e, f) <==> SomeSuffix(s, i, p, SkipStars(p, k), e, f)
    decreases e - k
  {
    StarIsSomeSuffix(s, i, p, k, e, f);
    if k + 1 < e && p[k + 1] == '*' {
      StarsAreOneStar(s, i, p, k + 1, e, f);
      if SomeSuffix(s, i, p, k + 1, e, f) {
        SuffixOfStar(s, i, p, k + 1, e, f);
      }
    }
  }

  // ----- Where '?' goes wrong, exactly -----

  /** The end of the run of pattern characters from k up to and including the next '*'. */
  function SegmentEnd(p: string, k: nat): (e: nat)
    requires k < |p|
    ensures k < e <= |p| && (e == |p| || p[e - 1] == '*')
    ensures forall n :: k <= n < e - 1 ==> p[n] != '*'
    decreases |p| - k
  {
    if k + 1 == |p| || p[k] == '*' then k + 1 else SegmentEnd(p, k + 1)
  }

  /**
   * The '?' at m, not directly behind a '*', can be reached with the whole text
   * used up, and the pattern up to the end of its segment does not match.
   */
  ghost predicate Overhangs(s: string, i: nat, p: string, k: nat, m: nat, f: Folding)
    requires i <= |s| && k <= |p|
  {
    && k <= m < |p| && p[m] == '?' && (m == k || p[m - 1] != '*')
    && Glob(s, i, p, k, m, f)
    && !Glob(s, i, p, k, SegmentEnd(p, m), f)
  }

  ghost predicate Misled(o: Outcome) {
    o == Match || o == Overrun
  }

  lemma {:induction false} BeyondMisleads(p: string, k: nat)
    requires k <= |p|
    ensures Misled(Beyond(p, k))
    decreases |p| - k
  {
    if k < |p| && p[k] == '?' {
      BeyondMisleads(p, k + 1);
    }
  }

  lemma {:induction false} StarTakesAll(s: string, i: nat, p: string, k: nat, f: Folding)
    requires i <= |s| && k < |p| && p[k] == '*'
    ensures Glob(s, i, p, k, k + 1, f)
    decreases |s| - i
  {
    if i < |s| {
      StarTakesAll(s, i + 1, p, k, f);
    }
  }

  /** A match of more of the pattern is a match of it up to any earlier '*'. */
  lemma {:induction false} CutAfterStar(s: string, i: nat, p: string, k: nat, e: nat, e': nat, f: Folding)
    requires i <= |s| && k < e <= e' <= |p| && (p[e - 1] == '*' || e == e')
    requires Glob(s, i, p, k, e', f)
    ensures Glob(s, i, p, k, e, f)
    decreases e - k, |s| - i
  {
    if e == e' {
    } else if k + 1 == e {
      StarTakesAll(s, i, p, k, f);
    } else if p[k] != '*' {
      CutAfterStar(s, i + 1, p, k + 1, e, e', f);
    } else if Glob(s, i, p, k + 1, e', f) {
      CutAfterStar(s, i, p, k + 1, e, e', f);
    } else {
      CutAfterStar(s, i + 1, p, k, e, e', f);
    }
  }

  /** A first segment matched at i can carry on with what follows a later match of it. */
  lemma {:induction false} Reattach(s: string, i: nat, j: nat, p: string, k: nat, m: nat, f: Folding)
    requires i <= j <= |s| && k < |p| && SegmentEnd(p, k) <= m <= |p|
    requires p[SegmentEnd(p, k) - 1] == '*'
    requires Glob(s, i, p, k, SegmentEnd(p, k), f) && Glob(s, j, p, k, m, f)
    ensures Glob(s, i, p, k, m, f)
    decreases |p| - k
  {
    if p[k] == '*' {
      SuffixOfStar(s, i, p, k, m, f);
    } else {
      Reattach(s, i + 1, j + 1, p, k + 1, m, f);
    }
  }

  /** Abort means the first segment was found and its '*' reached; NoMatch means it was not. */
  lemma {:induction false} SegmentTells(s: string, i: nat, p: string, k: nat, f: Folding)
    requires i <= |s| && k < |p|
    ensures Run(s, i, p, k, f) == Abort ==>
      p[SegmentEnd(p, k) - 1] == '*' && Glob(s, i, p, k, SegmentEnd(p, k), f)
    ensures Run(s, i, p, k, f) == NoMatch && p[SegmentEnd(p, k) - 1] == '*' ==>
      !Glob(s, i, p, k, SegmentEnd(p, k), f)
    decreases |p| - k
  {
    if p[k] == '*' {
      StarTakesAll(s, i, p, k, f);
      if SkipStars(p, k) < |p| {
        TryNeverSaysNoMatch(s, i, p, SkipStars(p, k), f);
      }
    } else if p[k] == '?' && i == |s| {
      BeyondMisleads(p, k + 1);
    } else if i < |s| && k + 1 < |p| {
      SegmentTells(s, i + 1, p, k + 1, f);
    } else if i < |s| {
      assert Run(s, i + 1, p, |p|, f) != Abort;
    }
  }

  lemma {:induction false} TryNeverSaysNoMatch(s: string, i: nat, p: string, q: nat, f: Folding)
    requires i <= |s| && q <= |p|
    ensures Try(s, i, p, q, f) != NoMatch
    decreases |s| - i
  {
    if i < |s| {
      TryNeverSaysNoMatch(s, i + 1, p, q, f);
    }
  }

  lemma {:induction false} OverhangMisleads(s: string, i: nat, p: string, k: nat, m: nat, f: Folding)
    requires i <= |s| && k <= |p| && Overhangs(s, i, p, k, m, f)
    ensures Misled(Run(s, i, p, k, f))
    decreases |p| - k, |s| - i, 0
  {
    if p[k] == '*' {
      var q := SkipStars(p, k);
      StarsAreOneStar(s, i, p, k, m, f);
      StarsAreOneStar(s, i, p, k, SegmentEnd(p, m), f);
      TryMisleads(s, i, p, q, m, f);
    } else if m == k {
      BeyondMisleads(p, k + 1);
    } else {
      OverhangMisleads(s, i + 1, p, k + 1, m, f);
    }
  }

  lemma {:induction false} TryMisleads(s: string, i: nat, p: string, q: nat, m: nat, f: Folding)
    requires i <= |s| && q < m < |p| && p[q] != '*' && p[m] == '?' && p[m - 1] != '*'
    requires SomeSuffix(s, i, p, q, m, f) && !SomeSuffix(s, i, p, q, SegmentEnd(p, m), f)
    ensures Misled(Try(s, i, p, q, f))
    decreases |p| - q, |s| - i, 1
  {
    if Glob(s, i, p, q, m, f) {
      OverhangMisleads(s, i, p, q, m, f);
    } else {
      var j :| i <= j <= |s| && Glob(s, j, p, q, m, f);
      SegmentTells(s, i, p, q, f);
      if Run(s, i, p, q, f) == Abort {
        if m < SegmentEnd(p, q) {
          SameSegment(p, q, m);
        } else {
          Reattach(s, i, j, p, q, m, f);
        }
        assert false;
      }
      TryMisleads(s, i + 1, p, q, m, f);
    }
  }

  lemma {:induction false} SameSegment(p: string, k: nat, m: nat)
    requires k <= m < |p| && m < SegmentEnd(p, k)
    ensures SegmentEnd(p, m) == SegmentEnd(p, k)
    decreases m - k
  {
    if k < m {
      SameSegment(p, k + 1, m);
    }
  }

  /** Inside one segment the text used is as long as the pattern used. */
  lemma {:induction false} SegmentLength(s: string, i: nat, p: string, k: nat, e: nat, f: Folding)
    requires i <= |s| && k <= e <= |p| && Glob(s, i, p, k, e, f)
    requires forall n :: k <= n < e - 1 ==> p[n] != '*'
    ensures k < e && p[e - 1] == '*' ==> e - 1 - k <= |s| - i
    ensures k == e || p[e - 1] != '*' ==> e - k == |s| - i
    decreases e - k
  {
    if k < e && p[k] != '*' {
      SegmentLength(s, i + 1, p, k + 1, e, f);
    }
  }

  /** Only stars are left: any text matches. */
  lemma NothingLeft(s: string, i: nat, p: string, k: nat, f: Folding)
    requires i <= |s| && k < |p| && p[k] == '*' && SkipStars(p, k) == |p|
    ensures Glob(s, i, p, k, |p|, f)
  {
    StarsAreOneStar(s, i, p, k, |p|, f);
    assert Glob(s, |s|, p, |p|, |p|, f);
  }

  lemma {:induction false} MisleadingOverhangs(s: string, i: nat, p: string, k: nat, f: Folding) returns (m: nat)
    requires i <= |s| && k <= |p|
    requires !Glob(s, i, p, k, |p|, f) && Misled(Run(s, i, p, k, f))
    ensures Overhangs(s, i, p, k, m, f)
    decreases |p| - k, |s| - i, 0
  {
    if p[k] == '*' {
      var q := SkipStars(p, k);
      if q == |p| {
        NothingLeft(s, i, p, k, f);
      }
      StarsAreOneStar(s, i, p, k, |p|, f);
      m := TryOverhangs(s, i, p, q, f);
      StarsAreOneStar(s, i, p, k, m, f);
      StarsAreOneStar(s, i, p, k, SegmentEnd(p, m), f);
    } else if i == |s| {
      m := k;
    } else {
      m := MisleadingOverhangs(s, i + 1, p, k + 1, f);
    }
  }

  lemma {:induction false} TryOverhangs(s: string, i: nat, p: string, q: nat, f: Folding) returns (m: nat)
    requires i <= |s| && q < |p| && p[q] != '*'
    requires !SomeSuffix(s, i, p, q, |p|, f) && Misled(Try(s, i, p, q, f))
    ensures q < m < |p| && p[m] == '?' && p[m - 1] != '*'
    ensures SomeSuffix(s, i, p, q, m, f) && !SomeSuffix(s, i, p, q, SegmentEnd(p, m), f)
    decreases |p| - q, |s| - i, 1
  {
    var e1 := SegmentEnd(p, q);
    if Run(s, i, p, q, f) == NoMatch {
      m := TryOverhangs(s, i + 1, p, q, f);
      SegmentTells(s, i, p, q, f);
      var e := SegmentEnd(p, m);
      if Glob(s, i, p, q, e, f) {
        SegmentsGrow(p, q, m);
        CutAfterStar(s, i, p, q, e1, e, f);
      }
    } else {
      m := MisleadingOverhangs(s, i, p, q, f);
      LaterDoesNotMatch(s, i, p, q, m, f);
    }
  }

  lemma {:induction false} SegmentsGrow(p: string, k: nat, m: nat)
    requires k <= m < |p|
    ensures SegmentEnd(p, k) <= SegmentEnd(p, m)
    ensures SegmentEnd(p, k) < SegmentEnd(p, m) ==> p[SegmentEnd(p, k) - 1] == '*'
    decreases m - k
  {
    if k < m {
      SegmentsGrow(p, k + 1, m);
    }
  }

  lemma LaterDoesNotMatch(s: string, i: nat, p: string, q: nat, m: nat, f: Folding)
    requires i <= |s| && q < |p| && Overhangs(s, i, p, q, m, f)
    ensures !SomeSuffix(s, i, p, q, SegmentEnd(p, m), f)
  {
    var e1, e := SegmentEnd(p, q), SegmentEnd(p, m);
    forall j | i < j <= |s|
      ensures !Glob(s, j, p, q, e, f)
    {
      if Glob(s, j, p, q, e, f) {
        if m < e1 {
          SameSegment(p, q, m);
          SegmentLength(s, i, p, q, m, f);
          SegmentLength(s, j, p, q, e, f);
        } else {
          SegmentsGrow(p, q, m);
          CutAfterStar(s, i, p, q, e1, m, f);
          Reattach(s, i, j, p, q, e, f);
        }
        assert false;
      }
    }
  }

  /**
   * The matcher is right about a string and a pattern - it stays inside the
   * string and says Match exactly for the strings that match - if and only if
   * no '?' of the pattern overhangs the end of the string.
   */
  lemma ExactlyWhenRight(s: string, p: string, f: Folding)
    ensures
      var rc := Run(s, 0, p, 0, f);
      (rc != Overrun && (rc == Match <==> Matches(s, p, f)))
      <==>
      !exists m :: Overhangs(s, 0, p, 0, m, f)
  {
    NoMatchIsLost(s, 0, p, 0, f);
    if m :| Overhangs(s, 0, p, 0, m, f) {
      OverhangMisleads(s, 0, p, 0, m, f);
      if Matches(s, p, f) {
        CutAfterStar(s, 0, p, 0, SegmentEnd(p, m), |p|, f);
      }
    }
    if !Matches(s, p, f) && Misled(Run(s, 0, p, 0, f)) {
      var m := MisleadingOverhangs(s, 0, p, 0, f);
    }
  }

  /** Without '?' the matcher decides the pattern for every string. */
  lemma RightWithoutQuestionMark(s: string, p: string, f: Folding)
    requires '?' !in p
    ensures Run(s, 0, p, 0, f) != Overrun
    ensures Run(s, 0, p, 0, f) == Match <==> Matches(s, p, f)
    ensures Run(s, 0, p, 0, f) == Abort ==> !SomeSuffix(s, 0, p, 0, |p|, f)
  {
    ExactlyWhenRight(s, p, f);
    NoMatchIsLost(s, 0, p, 0, f);
  }

  /** A pattern without '*' and '?' is matched by the same text and no other. */
  lemma PlainPattern(s: string, p: string)
    requires '*' !in p && '?' !in p
    ensures Run(s, 0, p, 0, Exact) == Match <==> s == p
  {
    RightWithoutQuestionMark(s, p, Exact);
    NoStars(p);
    GlobExactly(s, 0, p, 0, |p|, |p|);
    if Matches(s, p, Exact) {
      assert forall n :: 0 <= n < |p| ==> s[0 + n - 0] == p[n];
      assert s == p;
    }
  }

  /** Ignoring case: by the texts whose characters are lowered to the same ones. */
  lemma PlainPatternLowered(s: string, p: string, low: char -> char)
    requires '*' !in p && '?' !in p
    ensures Run(s, 0, p, 0, Lower(low)) == Match <==> |s| == |p| && forall n :: 0 <= n < |p| ==> low(s[n]) == low(p[n])
  {
    RightWithoutQuestionMark(s, p, Lower(low));
    NoStars(p);
    GlobLowered(s, 0, p, 0, |p|, |p|, low);
  }

  lemma NoStars(p: string)
    requires '*' !in p && '?' !in p
    ensures forall n :: 0 <= n < |p| ==> p[n] != '*' && p[n] != '?'
  {
    assert forall n :: 0 <= n < |p| ==> p[n] in p;
  }

  /** A '?' behind the text: one pattern reads outside, another is wrongly accepted. */
  lemma QuestionMarkAtTheEnd()
    ensures Run("a", 0, "a?", 0, Exact) == Overrun && !Matches("a", "a?", Exact)
    ensures Run("a", 0, "a?*", 0, Exact) == Match && !Matches("a", "a?*", Exact)
  {
    assert Run("a", 0, "a?", 0, Exact) == Run("a", 1, "a?", 1, Exact) == Beyond("a?", 2);
    assert Run("a", 0, "a?*", 0, Exact) == Run("a", 1, "a?*", 1, Exact) == Beyond("a?*", 2);
    assert SkipStars("a?*", 2) == SkipStars("a?*", 3) == 3;
  }
}
