/** Splitting, joining and tokenizing strings. */
module Strings {

  // ----- searching -----

  /** The first position from `from` on whose membership in the delimiters is `wanted`, or the length. */
  function Find(s: string, delimiters: string, from: nat, wanted: bool): (i: nat)
    requires from <= |s|
    ensures from <= i <= |s|
    decreases |s| - from
  {
    if from == |s| || (s[from] in delimiters) == wanted then from else Find(s, delimiters, from + 1, wanted)
  }

  lemma {:induction false} FindsFirst(s: string, delimiters: string, from: nat, wanted: bool, i: nat)
    requires from <= |s|
    ensures i == Find(s, delimiters, from, wanted) <==>
            && from <= i <= |s| && (i < |s| ==> (s[i] in delimiters) == wanted)
            && forall k :: from <= k < i ==> (s[k] in delimiters) != wanted
    decreases |s| - from
  {
    if from < |s| && (s[from] in delimiters) != wanted {
      FindsFirst(s, delimiters, from + 1, wanted, i);
    }
  }

  method FindFirst(s: string, delimiters: string, from: nat, wanted: bool) returns (i: nat)
    requires from <= |s|
    ensures i == Find(s, delimiters, from, wanted)
  {
    i := from;
    while i < |s| && (s[i] in delimiters) != wanted
      invariant from <= i <= |s| && Find(s, delimiters, i, wanted) == Find(s, delimiters, from, wanted)
    {
      i := i + 1;
    }
  }

  // ----- splitting and joining -----

  /** The pieces of `s` from `base` on: what lies between delimiters, empty pieces included. */
  function Pieces(s: string, delimiters: string, base: nat): (ps: seq<string>)
    requires base <= |s|
    ensures |ps| > 0
    decreases |s| - base
  {
    var found := Find(s, delimiters, base, true);
    if found == |s| then [s[base..]] else [s[base..found]] + Pieces(s, delimiters, found + 1)
  }

  function Join(ps: seq<string>, separator: string): (s: string)
    decreases |ps|
  {
    if ps == [] then "" else if |ps| == 1 then ps[0] else ps[0] + separator + Join(ps[1..], separator)
  }

  lemma PiecesStep(s: string, delimiters: string, base: nat, found: nat)
    requires base <= |s| && found == Find(s, delimiters, base, true)
    ensures Pieces(s, delimiters, base) == [s[base..found]] + if found == |s| then [] else Pieces(s, delimiters, found + 1)
  {
    assert found == |s| ==> s[base..found] == s[base..];
  }

  method Split(s: string, delimiters: string) returns (result: seq<string>)
    requires delimiters != ""
    ensures result == Pieces(s, delimiters, 0)
  {
    result := [];
    var base := 0;
    ghost var rest := Pieces(s, delimiters, 0);
    ghost var all := rest;
    while true
      invariant 0 <= base <= |s| && rest == Pieces(s, delimiters, base) && result + rest == all
      decreases |s| - base
    {
      var found := FindFirst(s, delimiters, base, true);
      PiecesStep(s, delimiters, base, found);
      result := result + [s[base..found]];
      rest := rest[1..];
      if found == |s| {
        return;
      }
      base := found + 1;
    }
  }

  method JoinAll(things: seq<string>, separator: string) returns (result: string)
    ensures result == Join(things, separator)
  {
    if things == [] {
      return "";
    }
    result := things[0];
    var i := 1;
    assert things[..1] == [things[0]];
    while i < |things|
      invariant 1 <= i <= |things| && result == Join(things[..i], separator)
    {
      JoinSnoc(things[..i], things[i], separator);
      assert things[..i + 1] == things[..i] + [things[i]];
      result := result + separator + things[i];
      i := i + 1;
    }
    assert things[..|things|] == things;
  }

  lemma {:induction false} JoinSnoc(ps: seq<string>, p: string, separator: string)
    requires ps != []
    ensures Join(ps + [p], separator) == Join(ps, separator) + separator + p
    decreases |ps|
  {
    assert (ps + [p])[1..] == ps[1..] + [p];
    if |ps| > 1 {
      JoinSnoc(ps[1..], p, separator);
    }
  }

  lemma JoinCons(p: string, ps: seq<string>, separator: string)
    requires ps != []
    ensures Join([p] + ps, separator) == p + separator + Join(ps, separator)
  {
    assert ([p] + ps)[1..] == ps;
  }

  /** Joining the pieces of a split at one delimiter gives the string back. */
  lemma {:induction false} JoinOfSplit(s: string, c: char, base: nat)
    requires base <= |s|
    ensures Join(Pieces(s, [c], base), [c]) == s[base..]
    decreases |s| - base
  {
    var found := Find(s, [c], base, true);
    if found < |s| {
      JoinOfSplit(s, c, found + 1);
      FindsFirst(s, [c], base, true, found);
      JoinCons(s[base..found], Pieces(s, [c], found + 1), [c]);
      assert s[base..] == s[base..found] + [c] + s[found + 1..];
    }
  }

  predicate Free(p: string, delimiters: string) {
    forall i :: 0 <= i < |p| ==> p[i] !in delimiters
  }

  lemma FoundFree(s: string, delimiters: string, base: nat, found: nat)
    requires base <= |s| && found == Find(s, delimiters, base, true)
    ensures Free(s[base..found], delimiters)
  {
    FindsFirst(s, delimiters, base, true, found);
  }

  predicate AllFree(ps: seq<string>, delimiters: string) {
    forall i :: 0 <= i < |ps| ==> Free(ps[i], delimiters)
  }

  /** Every piece is free of delimiters. */
  lemma {:induction false} PiecesFree(s: string, delimiters: string, base: nat, ps: seq<string>)
    requires base <= |s| && ps == Pieces(s, delimiters, base)
    ensures AllFree(ps, delimiters)
    decreases |s| - base
  {
    var found := Find(s, delimiters, base, true);
    FoundFree(s, delimiters, base, found);
    PiecesStep(s, delimiters, base, found);
    if found < |s| {
      PiecesFree(s, delimiters, found + 1, Pieces(s, delimiters, found + 1));
    }
  }

  /** The pieces from `base` on are those of the rest of the string. */
  lemma {:induction false} PiecesShift(s: string, delimiters: string, base: nat, from: nat)
    requires base + from <= |s|
    ensures Pieces(s, delimiters, base + from) == Pieces(s[base..], delimiters, from)
    decreases |s| - from
  {
    FindShift(s, delimiters, base, from, true);
    var found := Find(s[base..], delimiters, from, true);
    if found < |s[base..]| {
      PiecesShift(s, delimiters, base, found + 1);
      assert s[base + from..base + found] == s[base..][from..found];
    }
  }

  lemma {:induction false} FindShift(s: string, delimiters: string, base: nat, from: nat, wanted: bool)
    requires base + from <= |s|
    ensures Find(s, delimiters, base + from, wanted) == base + Find(s[base..], delimiters, from, wanted)
    decreases |s| - from
  {
    if base + from < |s| && (s[base + from] in delimiters) != wanted {
      FindShift(s, delimiters, base, from + 1, wanted);
    }
  }

  lemma FindsBehind(s: string, p: string, c: char, rest: string)
    requires Free(p, [c]) && s == p + [c] + rest
    ensures Find(s, [c], 0, true) == |p|
  {
    assert forall k :: 0 <= k < |p| ==> s[k] == p[k];
    FindsFirst(s, [c], 0, true, |p|);
  }

  /** The first piece of a string that starts with a delimiter-free part up to a delimiter. */
  lemma PiecesOfCons(s: string, p: string, c: char, rest: string)
    requires Free(p, [c]) && s == p + [c] + rest
    ensures Pieces(s, [c], 0) == [p] + Pieces(rest, [c], 0)
  {
    FindsBehind(s, p, c, rest);
    PiecesStep(s, [c], 0, |p|);
    PiecesShift(s, [c], |p| + 1, 0);
    assert s[|p| + 1..] == rest && s[0..|p|] == p;
  }

  lemma PiecesOfOne(p: string, c: char)
    requires Free(p, [c])
    ensures Pieces(p, [c], 0) == [p]
  {
    FindsFirst(p, [c], 0, true, |p|);
    PiecesStep(p, [c], 0, |p|);
    assert p[0..|p|] == p;
  }

  /** Splitting the join of any nonempty list of delimiter-free pieces gives the list back. */
  lemma {:induction false} SplitOfJoin(ps: seq<string>, c: char)
    requires ps != [] && AllFree(ps, [c])
    ensures Pieces(Join(ps, [c]), [c], 0) == ps
    decreases |ps|
  {
    if |ps| == 1 {
      PiecesOfOne(ps[0], c);
    } else {
      SplitOfJoin(ps[1..], c);
      PiecesOfCons(Join(ps, [c]), ps[0], c, Join(ps[1..], [c]));
      assert ps == [ps[0]] + ps[1..];
    }
  }

  // ----- tokens -----

  function NonEmpty(ps: seq<string>): (r: seq<string>)
    decreases |ps|
  {
    if ps == [] then [] else (if ps[0] == "" then [] else [ps[0]]) + NonEmpty(ps[1..])
  }

  lemma NonEmptyCons(p: string, ps: seq<string>)
    ensures NonEmpty([p] + ps) == (if p == "" then [] else [p]) + NonEmpty(ps)
  {
    assert ([p] + ps)[1..] == ps;
  }

  /** The pieces split off at `base` when nothing, or a stretch of delimiters, comes first. */
  lemma {:induction false} SkipDelimiters(s: string, delimiters: string, base: nat, to: nat)
    requires base <= to <= |s| && forall k :: base <= k < to ==> s[k] in delimiters
    ensures NonEmpty(Pieces(s, delimiters, base)) == NonEmpty(Pieces(s, delimiters, to))
    decreases |s| - base
  {
    if base < to {
      SkipDelimiters(s, delimiters, base + 1, to);
      var rest := Pieces(s, delimiters, base + 1);
      assert Find(s, delimiters, base, true) == base && s[base..base] == "";
      NonEmptyCons("", rest);
    }
  }

  lemma OneToken(s: string, delimiters: string, base: nat, end: nat)
    requires base < end <= |s| && Find(s, delimiters, base, true) == end
    ensures NonEmpty(Pieces(s, delimiters, base)) ==
            [s[base..end]] + if end < |s| then NonEmpty(Pieces(s, delimiters, end + 1)) else []
  {
    if end < |s| {
      NonEmptyCons(s[base..end], Pieces(s, delimiters, end + 1));
    } else {
      assert s[base..] == s[base..end];
      NonEmptyCons(s[base..end], []);
    }
  }

  lemma NoTokens(s: string, delimiters: string)
    ensures NonEmpty(Pieces(s, delimiters, |s|)) == []
  {
    assert s[|s|..] == "";
  }

  lemma AfterToken(s: string, delimiters: string, base: nat, end: nat)
    requires base < end <= |s| && Find(s, delimiters, base, true) == end
    ensures NonEmpty(Pieces(s, delimiters, end)) == if end < |s| then NonEmpty(Pieces(s, delimiters, end + 1)) else []
  {
    FindsFirst(s, delimiters, base, true, end);
    if end < |s| {
      SkipDelimiters(s, delimiters, end, end + 1);
    } else {
      NoTokens(s, delimiters);
    }
  }

  /** One turn of the token loop: skip delimiters up to `base`, then take the token that ends at `end`. */
  lemma NextToken(s: string, delimiters: string, from: nat, base: nat, end: nat)
    requires from <= base < end <= |s| && forall k :: from <= k < base ==> s[k] in delimiters
    requires Find(s, delimiters, base, true) == end
    ensures NonEmpty(Pieces(s, delimiters, from)) == [s[base..end]] + NonEmpty(Pieces(s, delimiters, end))
  {
    SkipDelimiters(s, delimiters, from, base);
    OneToken(s, delimiters, base, end);
    AfterToken(s, delimiters, base, end);
  }

  /** `Tokenize` is `Split` without the empty pieces, for any set of delimiters. */
  method Tokenize(s: string, delimiters: string) returns (result: seq<string>)
    requires delimiters != ""
    ensures result == NonEmpty(Pieces(s, delimiters, 0))
  {
    result := [];
    var end := 0;
    while true
      invariant 0 <= end <= |s| && result + NonEmpty(Pieces(s, delimiters, end)) == NonEmpty(Pieces(s, delimiters, 0))
      decreases |s| - end
    {
      var base := FindFirst(s, delimiters, end, false);
      FindsFirst(s, delimiters, end, false, base);
      if base == |s| {
        SkipDelimiters(s, delimiters, end, base);
        NoTokens(s, delimiters);
        return;
      }
      ghost var from := end;
      end := FindFirst(s, delimiters, base, true);
      FindsFirst(s, delimiters, base, true, end);
      NextToken(s, delimiters, from, base, end);
      result := result + [s[base..end]];
    }
  }
}
