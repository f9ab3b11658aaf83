/**
 * What `text.matchAll(re)`, `text.replace(re, callback)` and `re.test(text)` do with a global
 * regular expression, for any pattern given as a matcher: a function that tries the pattern at
 * the start of a text and reports the length of the match and its capture groups.
 */
module Scanning {
  import opened JsStrings

  /** A match found at the start of a text: how many characters it covers, and its capture groups */
  datatype Found<G> = Found(len: nat, groups: G)

  /** A scanned text cut into the stretches between matches and the matches themselves */
  datatype Piece<G> = Gap(text: string) | Hit(text: string, groups: G)

  function Flatten<G>(ps: seq<Piece<G>>): string {
    if |ps| == 0 then "" else ps[0].text + Flatten(ps[1..])
  }

  /** The capture groups of every match, in order */
  function Hits<G>(ps: seq<Piece<G>>): seq<G> {
    if |ps| == 0 then [] else (if ps[0].Hit? then [ps[0].groups] else []) + Hits(ps[1..])
  }

  /** `replace(re, callback)` over a scanned text: gaps kept, each match replaced by the callback's result */
  function Render<G>(ps: seq<Piece<G>>, f: (string, G) -> string): string {
    if |ps| == 0 then ""
    else
      (match ps[0]
       case Gap(t) => t
       case Hit(t, g) => f(t, g))
      + Render(ps[1..], f)
  }

  /** The pattern matches `s` at index `i` (a non-empty match that fits in `s`) */
  predicate MatchAt<G>(s: string, m: string -> Option<Found<G>>, i: nat)
    requires i <= |s|
  {
    m(s[i..]).Some? && 0 < m(s[i..]).value.len <= |s| - i
  }

  /** `re.test(s)`: the pattern matches somewhere */
  predicate Test<G>(s: string, m: string -> Option<Found<G>>) {
    exists i | 0 <= i <= |s| :: MatchAt(s, m, i)
  }

  /** The matches of `s.matchAll(re)` and `s.replace(re, ...)`: the leftmost match, then on from its end */
  function Scan<G>(s: string, m: string -> Option<Found<G>>): seq<Piece<G>> {
    ScanFrom(s, m, 0, 0)
  }

  /** Scanning on from index `i`, the text since `start` not yet matched */
  function ScanFrom<G>(s: string, m: string -> Option<Found<G>>, start: nat, i: nat): seq<Piece<G>>
    requires start <= i <= |s|
    decreases |s| - i
  {
    if i == |s| then
      (if start < i then [Gap(s[start..])] else [])
    else if MatchAt(s, m, i) then
      var n := m(s[i..]).value.len;
      (if start < i then [Gap(s[start..i])] else [])
        + [Hit(s[i..i + n], m(s[i..]).value.groups)]
        + ScanFrom(s, m, i + n, i + n)
    else
      ScanFrom(s, m, start, i + 1)
  }

  lemma {:induction false} FlattenConcat<G>(a: seq<Piece<G>>, b: seq<Piece<G>>)
    ensures Flatten(a + b) == Flatten(a) + Flatten(b)
  {
    if |a| > 0 {
      FlattenConcat(a[1..], b);
      assert (a + b)[1..] == a[1..] + b;
    } else {
      assert a + b == b;
    }
  }

  lemma {:induction false} HitsConcat<G>(a: seq<Piece<G>>, b: seq<Piece<G>>)
    ensures Hits(a + b) == Hits(a) + Hits(b)
  {
    if |a| > 0 {
      HitsConcat(a[1..], b);
      assert (a + b)[1..] == a[1..] + b;
    } else {
      assert a + b == b;
    }
  }

  lemma {:induction false} RenderConcat<G>(a: seq<Piece<G>>, b: seq<Piece<G>>, f: (string, G) -> string)
    ensures Render(a + b, f) == Render(a, f) + Render(b, f)
  {
    if |a| > 0 {
      RenderConcat(a[1..], b, f);
      assert (a + b)[1..] == a[1..] + b;
    } else {
      assert a + b == b;
    }
  }

  lemma {:induction false} ScanFromTiles<G>(s: string, m: string -> Option<Found<G>>, start: nat, i: nat)
    requires start <= i <= |s|
    ensures Flatten(ScanFrom(s, m, start, i)) == s[start..]
    decreases |s| - i
  {
    if i == |s| {
    } else if MatchAt(s, m, i) {
      var n := m(s[i..]).value.len;
      var gap: seq<Piece<G>> := if start < i then [Gap(s[start..i])] else [];
      var hit := [Hit(s[i..i + n], m(s[i..]).value.groups)];
      var rest := ScanFrom(s, m, i + n, i + n);
      assert ScanFrom(s, m, start, i) == gap + hit + rest;
      ScanFromTiles(s, m, i + n, i + n);
      FlattenThree(gap, hit, rest, s[start..i], s[i..i + n], s[i + n..]);
      SliceThree(s, start, i, i + n);
    } else {
      ScanFromTiles(s, m, start, i + 1);
    }
  }

  lemma FlattenThree<G>(gap: seq<Piece<G>>, hit: seq<Piece<G>>, rest: seq<Piece<G>>, a: string, b: string, c: string)
    requires (gap == [] && a == []) || gap == [Gap(a)]
    requires |hit| == 1 && hit[0].text == b && Flatten(rest) == c
    ensures Flatten(gap + hit + rest) == a + b + c
  {
    FlattenConcat(gap + hit, rest);
    FlattenConcat(gap, hit);
    assert Flatten(hit) == b + Flatten(hit[1..]);
    if gap != [] {
      assert Flatten(gap) == a + Flatten(gap[1..]);
    }
  }
  lemma SliceThree(s: string, a: nat, b: nat, c: nat)
    requires a <= b <= c <= |s|
    ensures s[a..] == s[a..b] + s[b..c] + s[c..]
  {
    assert s[a..] == s[a..b] + s[b..];
    assert s[b..] == s[b..c] + s[c..];
  }

  /** The gaps and the matches, put back together, are the scanned text */
  lemma ScanTiles<G>(s: string, m: string -> Option<Found<G>>)
    ensures Flatten(Scan(s, m)) == s
  {
    ScanFromTiles(s, m, 0, 0);
  }

  lemma {:induction false} ScanFromFinds<G>(s: string, m: string -> Option<Found<G>>, start: nat, i: nat)
    requires start <= i <= |s|
    ensures Hits(ScanFrom(s, m, start, i)) != [] <==> exists j | i <= j <= |s| :: MatchAt(s, m, j)
    decreases |s| - i
  {
    if i == |s| {
      if start < i {
        var g: seq<Piece<G>> := [Gap(s[start..])];
        assert Hits(g) == [];
      }
    } else if MatchAt(s, m, i) {
      var n := m(s[i..]).value.len;
      var gap: seq<Piece<G>> := if start < i then [Gap(s[start..i])] else [];
      var hit := [Hit(s[i..i + n], m(s[i..]).value.groups)];
      HitsConcat(gap + hit, ScanFrom(s, m, i + n, i + n));
      HitsConcat(gap, hit);
      assert Hits(hit) != [];
    } else {
      ScanFromFinds(s, m, start, i + 1);
      assert forall j | i <= j <= |s| :: MatchAt(s, m, j) ==> i + 1 <= j;
    }
  }

  /** `re.test(s)` holds exactly when `s.matchAll(re)` yields at least one match */
  lemma ScanFindsIffTest<G>(s: string, m: string -> Option<Found<G>>)
    ensures Hits(Scan(s, m)) != [] <==> Test(s, m)
  {
    ScanFromFinds(s, m, 0, 0);
  }

  /** A callback that gives every match back unchanged leaves the whole text unchanged */
  lemma {:induction false} RenderIdentity<G>(ps: seq<Piece<G>>, f: (string, G) -> string)
    requires forall k | 0 <= k < |ps| && ps[k].Hit? :: f(ps[k].text, ps[k].groups) == ps[k].text
    ensures Render(ps, f) == Flatten(ps)
  {
    if |ps| > 0 {
      RenderIdentity(ps[1..], f);
    }
  }

  /** With no match at all, any callback leaves the text unchanged */
  lemma {:induction false} RenderWithoutHits<G>(ps: seq<Piece<G>>, f: (string, G) -> string)
    requires Hits(ps) == []
    ensures Render(ps, f) == Flatten(ps)
  {
    if |ps| > 0 {
      assert !ps[0].Hit?;
      assert Hits(ps) == Hits(ps[1..]);
      RenderWithoutHits(ps[1..], f);
    }
  }

  /** Every match among `ps` satisfies `P` */
  predicate AllHits<G>(ps: seq<Piece<G>>, P: (string, G) -> bool) {
    |ps| == 0 || ((ps[0].Hit? ==> P(ps[0].text, ps[0].groups)) && AllHits(ps[1..], P))
  }

  lemma {:induction false} AllHitsConcat<G>(a: seq<Piece<G>>, b: seq<Piece<G>>, P: (string, G) -> bool)
    requires AllHits(a, P) && AllHits(b, P)
    ensures AllHits(a + b, P)
  {
    if |a| > 0 {
      AllHitsConcat(a[1..], b, P);
      assert (a + b)[1..] == a[1..] + b;
    } else {
      assert a + b == b;
    }
  }

  lemma {:induction false} AllHitsMembers<G>(ps: seq<Piece<G>>, P: (string, G) -> bool)
    requires AllHits(ps, P)
    ensures forall p | p in ps && p.Hit? :: P(p.text, p.groups)
  {
    if |ps| > 0 {
      AllHitsMembers(ps[1..], P);
      assert forall p | p in ps :: p == ps[0] || p in ps[1..];
    }
  }

  /** Every match the scanner reports from index `i` on is a match the matcher made at some index */
  lemma {:induction false} ScanFromHitsSatisfy<G>(s: string, m: string -> Option<Found<G>>, P: (string, G) -> bool, start: nat, i: nat)
    requires start <= i <= |s|
    requires forall k | 0 <= k < |s| && MatchAt(s, m, k) :: P(s[k..k + m(s[k..]).value.len], m(s[k..]).value.groups)
    ensures AllHits(ScanFrom(s, m, start, i), P)
    decreases |s| - i
  {
    if i == |s| {
      if start < i {
        var g: seq<Piece<G>> := [Gap(s[start..])];
        assert AllHits(g[1..], P);
      }
    } else if MatchAt(s, m, i) {
      var n := m(s[i..]).value.len;
      ScanFromHitsSatisfy(s, m, P, i + n, i + n);
      var gap: seq<Piece<G>> := if start < i then [Gap(s[start..i])] else [];
      var hit := [Hit(s[i..i + n], m(s[i..]).value.groups)];
      assert AllHits(gap, P) by {
        if start < i {
          assert AllHits(gap[1..], P);
        }
      }
      assert AllHits(hit, P) by {
        assert AllHits(hit[1..], P);
      }
      AllHitsConcat(gap, hit, P);
      AllHitsConcat(gap + hit, ScanFrom(s, m, i + n, i + n), P);
      assert ScanFrom(s, m, start, i) == gap + hit + ScanFrom(s, m, i + n, i + n);
    } else {
      ScanFromHitsSatisfy(s, m, P, start, i + 1);
    }
  }

  /** A property every match of the matcher has is had by every match in a scan */
  lemma ScanHitsSatisfy<G>(s: string, m: string -> Option<Found<G>>, P: (string, G) -> bool)
    requires forall t: string :: m(t).Some? && m(t).value.len <= |t| ==> P(t[..m(t).value.len], m(t).value.groups)
    ensures forall p | p in Scan(s, m) && p.Hit? :: P(p.text, p.groups)
  {
    forall k | 0 <= k < |s| && MatchAt(s, m, k) ensures P(s[k..k + m(s[k..]).value.len], m(s[k..]).value.groups) {
      var t := s[k..];
      assert t[..m(t).value.len] == s[k..k + m(t).value.len];
    }
    ScanFromHitsSatisfy(s, m, P, 0, 0);
    AllHitsMembers(Scan(s, m), P);
  }

  /**
   * The pieces `ps`, laid down in `s` from index `off`, leave no match unreported: no index
   * inside a gap is one at which the pattern matches.
   */
  predicate NoMatchInGaps<G>(s: string, m: string -> Option<Found<G>>, ps: seq<Piece<G>>, off: nat)
    decreases |ps|
  {
    || |ps| == 0
    || (&& (ps[0].Gap? ==> forall j | off <= j < off + |ps[0].text| && j <= |s| :: !MatchAt(s, m, j))
        && NoMatchInGaps(s, m, ps[1..], off + |ps[0].text|))
  }

  lemma {:induction false} NoMatchInGapsConcat<G>(s: string, m: string -> Option<Found<G>>, a: seq<Piece<G>>, b: seq<Piece<G>>, off: nat)
    requires NoMatchInGaps(s, m, a, off) && NoMatchInGaps(s, m, b, off + |Flatten(a)|)
    ensures NoMatchInGaps(s, m, a + b, off)
    decreases |a|
  {
    if |a| == 0 {
      assert a + b == b;
    } else {
      NoMatchInGapsConcat(s, m, a[1..], b, off + |a[0].text|);
      assert (a + b)[1..] == a[1..] + b;
    }
  }

  /** Scanning on from `i` with no match in `start..i` leaves no match inside a gap */
  lemma {:induction false} ScanFromNoMatchInGaps<G>(s: string, m: string -> Option<Found<G>>, start: nat, i: nat)
    requires start <= i <= |s|
    requires forall j | start <= j < i :: !MatchAt(s, m, j)
    ensures NoMatchInGaps(s, m, ScanFrom(s, m, start, i), start)
    decreases |s| - i
  {
    if i == |s| {
      if start < i {
        var g: seq<Piece<G>> := [Gap(s[start..])];
        assert NoMatchInGaps(s, m, g[1..], start + |s| - start);
      }
    } else if MatchAt(s, m, i) {
      var n := m(s[i..]).value.len;
      var gap: seq<Piece<G>> := if start < i then [Gap(s[start..i])] else [];
      var hit := [Hit(s[i..i + n], m(s[i..]).value.groups)];
      var rest := ScanFrom(s, m, i + n, i + n);
      ScanFromNoMatchInGaps(s, m, i + n, i + n);
      assert NoMatchInGaps(s, m, gap, start) && |Flatten(gap)| == i - start by {
        if start < i {
          assert NoMatchInGaps(s, m, gap[1..], i);
        }
      }
      assert NoMatchInGaps(s, m, hit, i) && |Flatten(hit)| == n by {
        assert NoMatchInGaps(s, m, hit[1..], i + n);
      }
      NoMatchInGapsConcat(s, m, hit, rest, i);
      NoMatchInGapsConcat(s, m, gap, hit + rest, start);
      assert ScanFrom(s, m, start, i) == gap + (hit + rest);
    } else {
      ScanFromNoMatchInGaps(s, m, start, i + 1);
    }
  }

  /** `matchAll` misses no match: every index at which the pattern matches lies inside a reported match */
  lemma ScanGapsHoldNoMatch<G>(s: string, m: string -> Option<Found<G>>)
    ensures NoMatchInGaps(s, m, Scan(s, m), 0)
  {
    ScanFromNoMatchInGaps(s, m, 0, 0);
  }

  /** Every match group listed by `Hits` belongs to some `Hit` piece */
  lemma {:induction false} HitsFromPieces<G>(ps: seq<Piece<G>>, k: nat)
    requires k < |Hits(ps)|
    ensures exists p | p in ps :: p.Hit? && p.groups == Hits(ps)[k]
  {
    if ps[0].Hit? {
      if k > 0 {
        HitsFromPieces(ps[1..], k - 1);
      }
    } else {
      HitsFromPieces(ps[1..], k);
    }
  }

  /** The groups of every `Hit` piece are listed by `Hits` */
  lemma {:induction false} PieceInHits<G>(ps: seq<Piece<G>>, k: nat)
    requires k < |ps| && ps[k].Hit?
    ensures ps[k].groups in Hits(ps)
  {
    if k > 0 {
      PieceInHits(ps[1..], k - 1);
    }
  }

  /** A text that is one whole match scans as that one match */
  lemma ScanWholeMatch<G>(s: string, m: string -> Option<Found<G>>)
    requires m(s).Some? && m(s).value.len == |s| > 0
    ensures Scan(s, m) == [Hit(s, m(s).value.groups)]
  {
    assert s[0..] == s;
    assert s[0..|s|] == s;
    assert MatchAt(s, m, 0);
    assert ScanFrom(s, m, |s|, |s|) == [];
  }
}
