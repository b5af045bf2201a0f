/** The wildcard topic matcher, which walks filter and name character by character, against matching level by
    level (MQTT 3.1.1, section 4.7.1). */
module TopicMatch {
  import opened Bytes

  const SLASH: byte := 47
  const PLUS: byte := 43
  const HASH: byte := 35

  /** The length of the first level. */
  function First(s: seq<byte>): (k: nat)
    ensures k <= |s| && (k < |s| ==> s[k] == SLASH)
    ensures forall i :: 0 <= i < k ==> s[i] != SLASH
  {
    if s == [] || s[0] == SLASH then 0 else 1 + First(s[1..])
  }

  function Levels(s: seq<byte>): (r: seq<seq<byte>>)
    ensures r != [] && r[0] == s[..First(s)]
  {
    var k := First(s);
    if k == |s| then [s] else [s[..k]] + Levels(s[k + 1..])
  }

  /** '+' stands for one non-empty level, '#' for one or more levels of which the first is not empty. */
  predicate LevelsMatch(f: seq<seq<byte>>, n: seq<seq<byte>>) {
    if f == [] || n == [] then f == [] && n == []
    else if f[0] == [HASH] then n[0] != []
    else if f[0] == [PLUS] then n[0] != [] && LevelsMatch(f[1..], n[1..])
    else f[0] == n[0] && LevelsMatch(f[1..], n[1..])
  }

  /** A wildcard fills its level, and '#' only comes last. */
  predicate WellFormed(f: seq<byte>) {
    WellFormedLevels(Levels(f))
  }

  predicate WellFormedLevels(f: seq<seq<byte>>) {
    forall i :: 0 <= i < |f| ==>
      if f[i] == [HASH] then i == |f| - 1 else f[i] == [PLUS] || Literal(f[i])
  }

  predicate Literal(l: seq<byte>) { PLUS !in l && HASH !in l }

  /** The walk, on what is left of filter and name. */
  function Walk(f: seq<byte>, n: seq<byte>): bool {
    if f == [] || n == [] then f == [] && n == []
    else if n[0] == SLASH && f[0] != SLASH then false
    else if f[0] != PLUS && f[0] != HASH && f[0] != n[0] then false
    else if f[0] == PLUS then
      assert First(n) <= |n|;
      Walk(f[1..], n[First(n)..])
    else if f[0] == HASH then Walk(f[1..], [])
    else Walk(f[1..], n[1..])
  }

  /** mqtt_topic_is_matched. */
  method TopicIsMatched(f: seq<byte>, n: seq<byte>) returns (r: bool)
    ensures r == Walk(f, n)
    ensures WellFormed(f) ==> r == LevelsMatch(Levels(f), Levels(n))
  {
    var i, j := 0, 0;
    while i < |f| && j < |n|
      invariant 0 <= i <= |f| && 0 <= j <= |n|
      invariant Walk(f, n) == Walk(f[i..], n[j..])
      decreases |f| - i
    {
      ghost var fr, nr := f[i..], n[j..];
      if n[j] == SLASH && f[i] != SLASH {
        break;
      }
      if f[i] != PLUS && f[i] != HASH && f[i] != n[j] {
        break;
      }
      if f[i] == PLUS {
        ghost var j0 := j;
        var next := j + 1;
        while next < |n| && n[next] != SLASH
          invariant next == j + 1 && j0 <= j < |n|
          invariant forall k :: j0 <= k <= j ==> n[k] != SLASH
        {
          j := j + 1;
          next := j + 1;
        }
        FirstIs(nr, j + 1 - j0);
        assert nr[First(nr)..] == n[j + 1..];
      } else if f[i] == HASH {
        j := |n| - 1;
      } else {
        assert nr[1..] == n[j + 1..];
      }
      assert fr[1..] == f[i + 1..];
      i, j := i + 1, j + 1;
    }
    r := j == |n| && i == |f|;
    if WellFormed(f) {
      WalkIsLevels(f, n);
    }
  }

  lemma {:induction false} FirstIs(s: seq<byte>, k: nat)
    requires k <= |s| && (k < |s| ==> s[k] == SLASH) && forall i :: 0 <= i < k ==> s[i] != SLASH
    ensures First(s) == k
  {}

  /** A literal level is walked as a whole. */
  lemma {:induction false} WalkLiteral(l: seq<byte>, f: seq<byte>, n: seq<byte>)
    requires Literal(l) && SLASH !in l && (f == [] || f[0] == SLASH)
    ensures Walk(l + f, n) == (n[..First(n)] == l && Walk(f, n[First(n)..]))
    decreases |l|
  {
    if l == [] {
      assert l + f == f;
      if First(n) == 0 { assert n[First(n)..] == n; }
    } else {
      assert (l + f)[1..] == l[1..] + f && l[0] in l;
      if n != [] && n[0] == l[0] {
        var h := First(n);
        FirstIs(n[1..], h - 1);
        WalkLiteral(l[1..], f, n[1..]);
        assert n[1..][..h - 1] == n[..h][1..] && n[1..][h - 1..] == n[h..];
        assert n[..h] == [n[0]] + n[..h][1..] && l == [l[0]] + l[1..];
      } else if n != [] {
        if First(n) > 0 { assert n[..First(n)][0] == n[0]; }
      }
    }
  }

  predicate LevelOk(l: seq<byte>, n: seq<byte>) {
    if l == [PLUS] then n != [] else l == n
  }

  /** The walk over a first level that is not '#'. */
  lemma WalkLevel(f: seq<byte>, n: seq<byte>)
    requires var l := f[..First(f)]; l == [PLUS] || Literal(l)
    ensures Walk(f, n) == (LevelOk(f[..First(f)], n[..First(n)]) && Walk(f[First(f)..], n[First(n)..]))
  {
    var k := First(f);
    var l := f[..k];
    assert f == l + f[k..];
    if l == [PLUS] {
      assert f[0] == l[0];
      if n != [] && n[0] == SLASH { FirstIs(n, 0); }
    } else {
      WalkLiteral(l, f[k..], n);
    }
  }

  /** The walk over the slash between two levels, or over the end. */
  lemma WalkSlash(f: seq<byte>, n: seq<byte>)
    requires (f == [] || f[0] == SLASH) && (n == [] || n[0] == SLASH)
    ensures Walk(f, n) == if f == [] || n == [] then f == [] && n == [] else Walk(f[1..], n[1..])
  {}

  /** For well-formed filters the walk is level-by-level matching. */
  lemma {:induction false} WalkIsLevels(f: seq<byte>, n: seq<byte>)
    requires WellFormed(f)
    ensures Walk(f, n) == LevelsMatch(Levels(f), Levels(n))
    decreases |f|
  {
    hide First, Walk, Levels, Literal;
    var k, h := First(f), First(n);
    var l := f[..k];
    LevelsParts(f);
    LevelsParts(n);
    if l == [HASH] {
      WalkHash(f, n);
    } else {
      WalkLevel(f, n);
      WalkSlash(f[k..], n[h..]);
      if k < |f| {
        WellFormedTail(Levels(f));
        if h < |n| {
          WalkIsLevels(f[k + 1..], n[h + 1..]);
        }
      }
    }
  }

  lemma LevelsParts(s: seq<byte>)
    ensures var k, t := First(s), Levels(s);
            && t[0] == s[..k] && (k == |s| ==> t == [s] && s[k..] == [])
            && (k < |s| ==> t[1..] == Levels(s[k + 1..]) && s[k..][1..] == s[k + 1..])
  {
    hide First;
  }

  lemma WalkHash(f: seq<byte>, n: seq<byte>)
    requires WellFormed(f) && f[..First(f)] == [HASH]
    ensures Walk(f, n) == (n[..First(n)] != [])
  {
    assert Levels(f)[0] == [HASH];
    assert f[0] == f[..First(f)][0];
    if n != [] { assert Walk([], []); }
  }

  lemma WellFormedTail(f: seq<seq<byte>>)
    requires WellFormedLevels(f) && |f| > 0
    ensures WellFormedLevels(f[1..])
  {}

  // ---- against the standard ----

  /** Section 4.7.1: '+' stands for exactly one level, '#' for any number of levels including none. */
  predicate StandardMatch(f: seq<seq<byte>>, n: seq<seq<byte>>) {
    if f == [] then n == []
    else if f[0] == [HASH] then true
    else n != [] && (f[0] == [PLUS] || f[0] == n[0]) && StandardMatch(f[1..], n[1..])
  }

  /** Every wildcard of the filter faces a level of the name that is there and not empty. */
  predicate WildcardsFilled(f: seq<seq<byte>>, n: seq<seq<byte>>) {
    forall i :: 0 <= i < |f| && (f[i] == [PLUS] || f[i] == [HASH]) ==> i < |n| && n[i] != []
  }

  /** The exact difference, for all names: the code accepts what the standard does when no wildcard faces an empty
      level or none. */
  lemma {:induction false} StandardWhenFilled(f: seq<seq<byte>>, n: seq<seq<byte>>)
    requires WellFormedLevels(f)
    ensures LevelsMatch(f, n) <==> StandardMatch(f, n) && WildcardsFilled(f, n)
  {
    if f != [] && f[0] != [HASH] && n != [] {
      WellFormedTail(f);
      StandardWhenFilled(f[1..], n[1..]);
      FilledTail(f, n);
    }
  }

  lemma FilledTail(f: seq<seq<byte>>, n: seq<seq<byte>>)
    requires f != [] && n != []
    ensures WildcardsFilled(f, n) <==>
      WildcardsFilled(f[1..], n[1..]) && (f[0] == [PLUS] || f[0] == [HASH] ==> n[0] != [])
  {
    if WildcardsFilled(f, n) {
      forall i | 0 <= i < |f| - 1 && (f[1..][i] == [PLUS] || f[1..][i] == [HASH])
        ensures i < |n[1..]| && n[1..][i] != []
      {
        assert f[i + 1] == f[1..][i];
      }
    } else {
      var i :| 0 <= i < |f| && (f[i] == [PLUS] || f[i] == [HASH]) && !(i < |n| && n[i] != []);
      if i > 0 {
        assert f[1..][i - 1] == f[i];
      }
    }
  }

  /** The same of the characters that are walked. */
  lemma WalkAgainstStandard(f: seq<byte>, n: seq<byte>)
    requires WellFormed(f)
    ensures Walk(f, n) <==> StandardMatch(Levels(f), Levels(n)) && WildcardsFilled(Levels(f), Levels(n))
  {
    hide Walk, Levels, StandardMatch, WildcardsFilled;
    WalkIsLevels(f, n);
    StandardWhenFilled(Levels(f), Levels(n));
  }

  /** On names without empty levels the code accepts exactly what the standard does, except that a filter
      ending in '#' does not match its own parent level. */
  lemma {:induction false} AgainstStandard(f: seq<seq<byte>>, n: seq<seq<byte>>)
    requires WellFormedLevels(f) && forall i :: 0 <= i < |n| ==> n[i] != []
    ensures StandardMatch(f, n) <==>
      LevelsMatch(f, n) || (f != [] && f[|f| - 1] == [HASH] && LevelsMatch(f[..|f| - 1], n))
  {
    if f != [] && f[0] != [HASH] && n != [] {
      WellFormedTail(f);
      AgainstStandard(f[1..], n[1..]);
      if |f| > 1 {
        assert f[..|f| - 1][1..] == f[1..][..|f| - 2] && f[..|f| - 1][0] == f[0];
      }
    }
  }

  /** The parent of a '#' filter, `a/#`: the standard accepts it, the code does not. The three special characters are
      those of the standard. */
  lemma ParentNotMatched()
    ensures SLASH == '/' as int && PLUS == '+' as int && HASH == '#' as int
    ensures StandardMatch([[97], [HASH]], [[97]]) && !LevelsMatch([[97], [HASH]], [[97]])
  {
    assert [[97 as byte], [HASH]][1..] == [[HASH]] && [[97 as byte]][1..] == [];
  }
}
