/**
 * The search `re.search(br'QtWebEngine/([0-9.]+) Chrome/([0-9.]+)', rodata)`
 * for the one fixed pattern the reader uses, written out directly: at the
 * leftmost position where the pattern matches, group 1 and group 2 are the
 * maximal runs of digits and dots after each literal.
 */
module VersionPattern {
  import opened Bytes
  import opened Wrappers

  /** `QtWebEngine/` */
  const EngineTag: seq<byte> := [0x51, 0x74, 0x57, 0x65, 0x62, 0x45, 0x6e, 0x67, 0x69, 0x6e, 0x65, 0x2f]

  /** ` Chrome/`, beginning with a space. */
  const ChromeTag: seq<byte> := [0x20, 0x43, 0x68, 0x72, 0x6f, 0x6d, 0x65, 0x2f]

  /** The character class `[0-9.]`. */
  predicate IsVersionByte(b: byte)
  {
    (0x30 <= b <= 0x39) || b == 0x2e
  }

  /** What `[0-9.]+` matches: one or more digits and dots. */
  predicate IsVersion(v: seq<byte>)
  {
    |v| > 0 && forall k :: 0 <= k < |v| ==> IsVersionByte(v[k])
  }

  /** Where the run of version bytes starting at `i` ends. */
  function RunEnd(s: seq<byte>, i: nat): (j: nat)
    requires i <= |s|
    ensures i <= j <= |s|
    ensures forall k :: i <= k < j ==> IsVersionByte(s[k])
    ensures j < |s| ==> !IsVersionByte(s[j])
    decreases |s| - i
  {
    if i < |s| && IsVersionByte(s[i]) then RunEnd(s, i + 1) else i
  }

  /**
   * The pattern's language: `s` spells `QtWebEngine/<v1> Chrome/<v2>` from
   * position `i` on, with both versions made of digits and dots.
   */
  ghost predicate Spells(s: seq<byte>, i: nat, v1: seq<byte>, v2: seq<byte>)
  {
    var w := EngineTag + v1 + ChromeTag + v2;
    IsVersion(v1) && IsVersion(v2) && i + |w| <= |s| && s[i..i + |w|] == w
  }

  /** The pattern matches at `i` for some choice of the two groups. */
  ghost predicate MatchesAt(s: seq<byte>, i: nat)
  {
    exists v1, v2 :: Spells(s, i, v1, v2)
  }

  /** The pattern matches somewhere in `s`. */
  ghost predicate MatchesSomewhere(s: seq<byte>)
  {
    exists j :: 0 <= j <= |s| && MatchesAt(s, j)
  }

  /** `re.match` of the pattern at `i`: the two groups, the second one greedy. */
  function MatchAt(s: seq<byte>, i: nat): Option<(seq<byte>, seq<byte>)>
    requires i <= |s|
  {
    var a := i + |EngineTag|;
    if a <= |s| && s[i..a] == EngineTag then
      var e1 := RunEnd(s, a);
      var b := e1 + |ChromeTag|;
      if a < e1 && b <= |s| && s[e1..b] == ChromeTag then
        var e2 := RunEnd(s, b);
        if b < e2 then Some((s[a..e1], s[b..e2])) else None
      else None
    else None
  }

  /**
   * What `MatchAt` finds is spelled by the pattern at `i`, and its second
   * group is not followed by another digit or dot.
   */
  lemma MatchAtSound(s: seq<byte>, i: nat)
    requires i <= |s| && MatchAt(s, i).Some?
    ensures Spells(s, i, MatchAt(s, i).value.0, MatchAt(s, i).value.1)
    ensures var e := i + |EngineTag| + |MatchAt(s, i).value.0| + |ChromeTag| + |MatchAt(s, i).value.1|;
      e == |s| || !IsVersionByte(s[e])
  {
    var a := i + |EngineTag|;
    var e1 := RunEnd(s, a);
    var b := e1 + |ChromeTag|;
    var e2 := RunEnd(s, b);
    Joined(s, i, a, e1, b, e2);
  }

  /** Four adjacent slices make up the slice that spans them. */
  lemma Joined(s: seq<byte>, i: nat, a: nat, e1: nat, b: nat, e2: nat)
    requires i <= a <= e1 <= b <= e2 <= |s|
    ensures s[i..e2] == s[i..a] + s[a..e1] + s[e1..b] + s[b..e2]
  {
    assert s[i..e2] == s[i..a] + s[a..e2];
    assert s[a..e2] == s[a..e1] + s[e1..e2];
    assert s[e1..e2] == s[e1..b] + s[b..e2];
  }

  /**
   * Wherever the pattern matches, `MatchAt` finds it: group 1 is forced,
   * because the space after it is not in `[0-9.]`, and group 2 extends the
   * one given as far as the run goes.
   */
  lemma MatchAtComplete(s: seq<byte>, i: nat, v1: seq<byte>, v2: seq<byte>)
    requires Spells(s, i, v1, v2)
    ensures MatchAt(s, i).Some?
    ensures MatchAt(s, i).value.0 == v1
    ensures |v2| <= |MatchAt(s, i).value.1| && MatchAt(s, i).value.1[..|v2|] == v2
  {
    var a := i + |EngineTag|;
    var e1 := a + |v1|;
    var b := e1 + |ChromeTag|;
    SpellsPieces(s, i, v1, v2);
    assert s[e1] == ChromeTag[0];
    assert RunEnd(s, a) == e1;
    assert s[b] == v2[0];
  }

  /** Where the pattern is spelled, each of its four parts lies at its place. */
  lemma SpellsPieces(s: seq<byte>, i: nat, v1: seq<byte>, v2: seq<byte>)
    requires Spells(s, i, v1, v2)
    ensures var a := i + |EngineTag|;
      var e1 := a + |v1|;
      var b := e1 + |ChromeTag|;
      && b + |v2| <= |s|
      && s[i..a] == EngineTag
      && s[a..e1] == v1
      && s[e1..b] == ChromeTag
      && s[b..b + |v2|] == v2
  {
    var w := EngineTag + v1 + ChromeTag + v2;
    var a := i + |EngineTag|;
    var e1 := a + |v1|;
    var b := e1 + |ChromeTag|;
    var e2 := b + |v2|;
    Pieces(EngineTag, v1, ChromeTag, v2);
    assert s[i..e2] == w;
    SubSlice(s, i, e2, 0, a - i);
    SubSlice(s, i, e2, a - i, e1 - i);
    SubSlice(s, i, e2, e1 - i, b - i);
    SubSlice(s, i, e2, b - i, e2 - i);
  }

  lemma Pieces(p: seq<byte>, q: seq<byte>, r: seq<byte>, t: seq<byte>)
    ensures var w := p + q + r + t;
      && w[0..|p|] == p
      && w[|p|..|p| + |q|] == q
      && w[|p| + |q|..|p| + |q| + |r|] == r
      && w[|p| + |q| + |r|..|w|] == t
  {
  }

  /** The pattern matches at `i` exactly when `MatchAt` finds a match there. */
  lemma MatchAtExact(s: seq<byte>, i: nat)
    requires i <= |s|
    ensures MatchAt(s, i).Some? <==> MatchesAt(s, i)
  {
    if MatchesAt(s, i) {
      var v1, v2 :| Spells(s, i, v1, v2);
      MatchAtComplete(s, i, v1, v2);
    }
    if MatchAt(s, i).Some? {
      MatchAtSound(s, i);
    }
  }

  /** `re.search` from position `i` on: the match that starts leftmost. */
  function SearchFrom(s: seq<byte>, i: nat): (r: Option<(seq<byte>, seq<byte>)>)
    requires i <= |s|
    ensures r.Some? ==> IsVersion(r.value.0) && IsVersion(r.value.1)
    decreases |s| - i
  {
    match MatchAt(s, i)
    case Some(m) => MatchAtSound(s, i); Some(m)
    case None => if i == |s| then None else SearchFrom(s, i + 1)
  }

  function Search(s: seq<byte>): Option<(seq<byte>, seq<byte>)>
  {
    SearchFrom(s, 0)
  }

  /**
   * A match the search returns is `MatchAt` at some `i`, and `MatchAt`
   * finds nothing before `i`.
   */
  lemma {:induction false} SearchFindsFirstMatchAt(s: seq<byte>, lo: nat)
    requires lo <= |s|
    requires SearchFrom(s, lo).Some?
    ensures exists i ::
      && lo <= i <= |s|
      && MatchAt(s, i) == SearchFrom(s, lo)
      && forall j :: lo <= j < i ==> MatchAt(s, j).None?
    decreases |s| - lo
  {
    if MatchAt(s, lo).None? {
      SearchFindsFirstMatchAt(s, lo + 1);
      var i :| lo + 1 <= i <= |s| && MatchAt(s, i) == SearchFrom(s, lo + 1)
        && forall j :: lo + 1 <= j < i ==> MatchAt(s, j).None?;
      assert SearchFrom(s, lo) == SearchFrom(s, lo + 1);
      assert forall j :: lo <= j < i ==> MatchAt(s, j).None?;
    } else {
      assert MatchAt(s, lo) == SearchFrom(s, lo);
    }
  }

  /**
   * A match the search returns is the greedy match at some `i`, and the
   * pattern matches nowhere before `i`: the search is leftmost.
   */
  lemma SearchIsLeftmost(s: seq<byte>)
    requires Search(s).Some?
    ensures exists i ::
      && 0 <= i <= |s|
      && MatchAt(s, i) == Search(s)
      && forall j :: 0 <= j < i ==> !MatchesAt(s, j)
  {
    SearchFindsFirstMatchAt(s, 0);
    var i :| 0 <= i <= |s| && MatchAt(s, i) == Search(s) && forall j :: 0 <= j < i ==> MatchAt(s, j).None?;
    forall j | 0 <= j < i
      ensures !MatchesAt(s, j)
    {
      MatchAtExact(s, j);
    }
  }

  /** The search finds nothing exactly when `MatchAt` finds nothing anywhere. */
  lemma {:induction false} SearchFromNone(s: seq<byte>, lo: nat)
    requires lo <= |s|
    ensures SearchFrom(s, lo).None? <==> forall j :: lo <= j <= |s| ==> MatchAt(s, j).None?
    decreases |s| - lo
  {
    if lo < |s| {
      SearchFromNone(s, lo + 1);
    }
  }

  /** The search finds nothing exactly when the pattern matches nowhere. */
  lemma SearchNone(s: seq<byte>)
    ensures Search(s).None? <==> forall j :: 0 <= j <= |s| ==> !MatchesAt(s, j)
  {
    SearchFromNone(s, 0);
    forall j | 0 <= j <= |s|
      ensures MatchAt(s, j).None? <==> !MatchesAt(s, j)
    {
      MatchAtExact(s, j);
    }
  }

  /** In `\0QtWebEngine/87.0 Chrome/87.0\0` the search finds both versions. */
  lemma SearchExample()
    ensures var v: seq<byte> := [0x38, 0x37, 0x2e, 0x30];
      var s := [0x00] + EngineTag + v + ChromeTag + v + [0x00];
      Search(s) == Some((v, v))
  {
    var v: seq<byte> := [0x38, 0x37, 0x2e, 0x30];
    var s := [0x00] + EngineTag + v + ChromeTag + v + [0x00];
    assert MatchAt(s, 0).None?;
    assert s[1..13] == EngineTag;
    assert s[13..17] == v && s[17] == 0x20;
    assert RunEnd(s, 17) == 17;
    assert RunEnd(s, 16) == 17;
    assert RunEnd(s, 15) == 17;
    assert RunEnd(s, 14) == 17;
    assert RunEnd(s, 13) == 17;
    assert s[17..25] == ChromeTag;
    assert s[25..29] == v && s[29] == 0x00;
    assert RunEnd(s, 29) == 29;
    assert RunEnd(s, 28) == 29;
    assert RunEnd(s, 27) == 29;
    assert RunEnd(s, 26) == 29;
    assert RunEnd(s, 25) == 29;
    assert MatchAt(s, 1) == Some((v, v));
    assert SearchFrom(s, 0) == SearchFrom(s, 1);
  }
}
