/**
 * A word-filter pattern used as `new RegExp(pattern, "gi")`, with the pattern
 * read as a literal string: case-insensitive search (`String.prototype.search`)
 * and global replacement (`String.prototype.replace`).
 */
module Patterns {

  import Strings

  /** Case folding for the `i` flag, restricted to the ASCII letters. */
  function Fold(c: char): (f: char)
    ensures 'A' <= c <= 'Z' ==> f as int == c as int + 32
    ensures !('A' <= c <= 'Z') ==> f == c
  {
    if 'A' <= c <= 'Z' then (c as int + 32) as char else c
  }

  /** `a` and `b` are equal up to case. */
  predicate SameFold(a: string, b: string)
  {
    |a| == |b| && forall j :: 0 <= j < |a| ==> Fold(a[j]) == Fold(b[j])
  }

  /** The pattern matches at the start of `s`. */
  predicate MatchesPrefix(s: string, pat: string)
  {
    |pat| <= |s| && SameFold(s[..|pat|], pat)
  }

  /** The pattern matches somewhere in `s` (the empty pattern matches everywhere). */
  predicate Occurs(pat: string, s: string)
  {
    MatchesPrefix(s, pat) || (s != [] && Occurs(pat, s[1..]))
  }

  /** `s.search(re)`: the index of the leftmost match, or -1 when there is none. */
  function Search(s: string, pat: string): (r: int)
    ensures -1 <= r <= |s|
    ensures r == -1 <==> !Occurs(pat, s)
    ensures r >= 0 ==> MatchesPrefix(s[r..], pat)
    ensures r >= 0 ==> forall j :: 0 <= j < r ==> !MatchesPrefix(s[j..], pat)
  {
    if MatchesPrefix(s, pat) then 0
    else if s == [] then -1
    else
      var k := Search(s[1..], pat);
      assert forall j :: 1 <= j <= |s| ==> s[j..] == s[1..][j - 1..];
      if k == -1 then -1 else k + 1
  }

  /**
   * `s.replace(re, rep)` with the `g` flag: scanning from the left, every
   * match is replaced by `rep` and scanning resumes after it; an empty
   * pattern matches before every character and at the end.
   */
  function ReplaceAll(s: string, pat: string, rep: string): (r: string)
    ensures pat != [] && |rep| == |pat| ==> |r| == |s|
    decreases |s|
  {
    if pat == [] then
      if s == [] then rep else rep + [s[0]] + ReplaceAll(s[1..], pat, rep)
    else if MatchesPrefix(s, pat) then rep + ReplaceAll(s[|pat|..], pat, rep)
    else if s == [] then []
    else [s[0]] + ReplaceAll(s[1..], pat, rep)
  }

  /** `gaps[0] + hits[0] + gaps[1] + ... + hits[n-1] + gaps[n]`. */
  function Interleave(gaps: seq<string>, hits: seq<string>): string
    requires |gaps| == |hits| + 1
  {
    if hits == [] then gaps[0] else gaps[0] + hits[0] + Interleave(gaps[1..], hits[1..])
  }

  lemma {:induction false} InterleaveConsHead(a: string, gaps: seq<string>, hits: seq<string>)
    requires |gaps| == |hits| + 1
    ensures Interleave([a + gaps[0]] + gaps[1..], hits) == a + Interleave(gaps, hits)
  {
    var g := [a + gaps[0]] + gaps[1..];
    assert g[0] == a + gaps[0] && g[1..] == gaps[1..];
    if hits != [] {
      assert Interleave(g, hits) == (a + gaps[0]) + hits[0] + Interleave(gaps[1..], hits[1..]);
    }
  }

  lemma {:induction false} InterleavePrefix(gaps: seq<string>, hits: seq<string>)
    requires |gaps| == |hits| + 1
    ensures |gaps[0]| <= |Interleave(gaps, hits)|
    ensures Interleave(gaps, hits)[..|gaps[0]|] == gaps[0]
  {
    if hits != [] {
      var rest := hits[0] + Interleave(gaps[1..], hits[1..]);
      assert Interleave(gaps, hits) == gaps[0] + rest;
    }
  }

  lemma {:induction false} JoinConsHead(a: string, gaps: seq<string>, rep: string)
    requires |gaps| > 0
    ensures Strings.JoinWith([a + gaps[0]] + gaps[1..], rep) == a + Strings.JoinWith(gaps, rep)
  {
    var g := [a + gaps[0]] + gaps[1..];
    assert g[0] == a + gaps[0] && g[1..] == gaps[1..];
    if |gaps| > 1 {
      assert Strings.JoinWith(g, rep) == (a + gaps[0]) + rep + Strings.JoinWith(gaps[1..], rep);
    }
  }

  /** A match at the start of a prefix of `s` is a match at the start of `s`. */
  lemma MatchesPrefixOfPrefix(a: string, s: string, pat: string)
    requires |a| <= |s| && s[..|a|] == a
    requires MatchesPrefix(a, pat)
    ensures MatchesPrefix(s, pat)
  {
    assert s[..|pat|] == a[..|pat|];
  }

  /** The pattern occurs in `[c] + s` only at its start or inside `s`. */
  lemma OccursCons(pat: string, c: char, s: string)
    ensures Occurs(pat, [c] + s) <==> MatchesPrefix([c] + s, pat) || Occurs(pat, s)
  {
    assert ([c] + s)[1..] == s;
  }

  /** Replacing a pattern that does not occur leaves the message unchanged. */
  lemma {:induction false} ReplaceAllNoMatch(s: string, pat: string, rep: string)
    requires !Occurs(pat, s)
    ensures ReplaceAll(s, pat, rep) == s
    decreases |s|
  {
    if s != [] {
      ReplaceAllNoMatch(s[1..], pat, rep);
      assert s == [s[0]] + s[1..];
    }
  }

  /** The gaps hold no occurrence of the pattern. */
  predicate GapsClean(gaps: seq<string>, pat: string)
  {
    forall k :: 0 <= k < |gaps| ==> !Occurs(pat, gaps[k])
  }

  /** Every hit equals the pattern up to case. */
  predicate HitsMatch(hits: seq<string>, pat: string)
  {
    forall k :: 0 <= k < |hits| ==> SameFold(hits[k], pat)
  }

  /** The leftmost match in `gap + hit` is `hit`. */
  predicate FirstAfter(gap: string, hit: string, pat: string)
  {
    Search(gap + hit, pat) == |gap|
  }

  /** Each hit is the leftmost match in its gap followed by it: matches are taken from the left. */
  predicate Leftmost(gaps: seq<string>, hits: seq<string>, pat: string)
    requires |gaps| == |hits| + 1
  {
    forall k :: 0 <= k < |hits| ==> FirstAfter(gaps[k], hits[k], pat)
  }

  /** The empty pattern's decomposition: an empty hit before every character and at the end. */
  predicate EmptyPieces(s: string, gaps: seq<string>, hits: seq<string>)
    requires |gaps| == |hits| + 1
  {
    |hits| == |s| + 1 && gaps[0] == [] && gaps[|gaps| - 1] == [] &&
    forall k :: 0 < k < |gaps| - 1 ==> |gaps[k]| == 1
  }

  /** Search in `[c] + gap + hit` when the pattern does not match at its start. */
  lemma SearchCons(c: char, gap: string, hit: string, pat: string)
    requires !MatchesPrefix([c] + gap + hit, pat) && Search(gap + hit, pat) >= 0
    ensures Search([c] + gap + hit, pat) == Search(gap + hit, pat) + 1
  {
    assert ([c] + gap + hit)[1..] == gap + hit;
  }

  /** The decomposition of `s` into gaps and hits that `ReplaceAll` performs. */
  predicate Pieces(s: string, pat: string, rep: string, gaps: seq<string>, hits: seq<string>)
  {
    |gaps| == |hits| + 1 && s == Interleave(gaps, hits) &&
    ReplaceAll(s, pat, rep) == Strings.JoinWith(gaps, rep) && HitsMatch(hits, pat)
  }

  /** A match at the start keeps the hits leftmost. */
  lemma MatchLeftmost(m: string, pat: string, g: seq<string>, h: seq<string>)
    requires |g| == |h| + 1 && SameFold(m, pat) && Leftmost(g, h, pat)
    ensures Leftmost([""] + g, [m] + h, pat)
  {
    assert [""][0] + m == m && m[..|pat|] == m;
  }

  /** The first character of `s` followed by a prefix of the rest is a prefix of `s`. */
  lemma ConsPrefix(s: string, gap: string, hit: string, rest: string)
    requires s != [] && s[1..] == gap + hit + rest
    ensures |gap| + |hit| + 1 <= |s| && s[..|gap| + |hit| + 1] == [s[0]] + gap + hit
  {
    assert s == [s[0]] + s[1..];
  }

  /** No match at the start of `s` means no match at the start of any prefix of `s`. */
  lemma PrefixNoMatch(a: string, s: string, pat: string)
    requires |a| <= |s| && s[..|a|] == a && !MatchesPrefix(s, pat)
    ensures !MatchesPrefix(a, pat)
  {
    if MatchesPrefix(a, pat) {
      MatchesPrefixOfPrefix(a, s, pat);
    }
  }

  /** A character that starts no match, put in front of a gap, keeps the following hit leftmost. */
  lemma SkipFirstAfter(s: string, gap: string, hit: string, rest: string, pat: string)
    requires s != [] && !MatchesPrefix(s, pat) && s[1..] == gap + hit + rest && FirstAfter(gap, hit, pat)
    ensures Search([s[0]] + gap + hit, pat) == |gap| + 1
  {
    ConsPrefix(s, gap, hit, rest);
    PrefixNoMatch([s[0]] + gap + hit, s, pat);
    SearchCons(s[0], gap, hit, pat);
  }

  /** Replacing the first gap keeps the hits leftmost when the first hit stays leftmost. */
  lemma LeftmostNewHead(a: string, g: seq<string>, h: seq<string>, pat: string)
    requires |g| == |h| + 1 && Leftmost(g, h, pat)
    requires h != [] ==> FirstAfter(a, h[0], pat)
    ensures Leftmost(g[0 := a], h, pat)
  {
  }

  /** Putting `a` in front of the first element, written as an update. */
  lemma ConsHeadUpdate(a: string, g: seq<string>)
    requires g != []
    ensures [a + g[0]] + g[1..] == g[0 := a + g[0]]
  {
  }

  /** A character that starts no match joins the first gap and keeps the hits leftmost. */
  lemma SkipLeftmost(s: string, pat: string, g: seq<string>, h: seq<string>)
    requires s != [] && !MatchesPrefix(s, pat)
    requires |g| == |h| + 1 && s[1..] == Interleave(g, h) && Leftmost(g, h, pat)
    ensures Leftmost([[s[0]] + g[0]] + g[1..], h, pat)
  {
    if h != [] {
      SkipFirstAfter(s, g[0], h[0], Interleave(g[1..], h[1..]), pat);
    }
    LeftmostNewHead([s[0]] + g[0], g, h, pat);
    ConsHeadUpdate([s[0]], g);
  }

  /** Step of the decomposition for the empty pattern, which matches before the first character. */
  lemma EmptyPatternStep(s: string, rep: string, g: seq<string>, h: seq<string>)
    returns (gaps: seq<string>, hits: seq<string>)
    requires s != [] && Pieces(s[1..], [], rep, g, h) && EmptyPieces(s[1..], g, h)
    ensures Pieces(s, [], rep, gaps, hits) && EmptyPieces(s, gaps, hits)
  {
    var tail := [[s[0]] + g[0]] + g[1..];
    gaps, hits := [""] + tail, [""] + h;
    assert gaps[1..] == tail && hits[1..] == h;
    InterleaveConsHead([s[0]], g, h);
    assert Interleave(gaps, hits) == Interleave(tail, h);
    assert s == [s[0]] + s[1..];
    JoinConsHead([s[0]], g, rep);
    assert Strings.JoinWith(gaps, rep) == "" + rep + Strings.JoinWith(tail, rep);
    assert ReplaceAll(s, [], rep) == rep + [s[0]] + ReplaceAll(s[1..], [], rep);
    assert SameFold(hits[0], []);
    forall k | 0 <= k < |hits| ensures SameFold(hits[k], []) {
      if k > 0 { assert hits[k] == h[k - 1]; }
    }
    assert gaps[1] == [s[0]];
    forall k | 1 < k < |gaps| ensures gaps[k] == g[k - 1] {
    }
  }

  /** Step of the decomposition when the non-empty pattern matches at the start of `s`. */
  lemma MatchStep(s: string, pat: string, rep: string, g: seq<string>, h: seq<string>)
    returns (gaps: seq<string>, hits: seq<string>)
    requires pat != [] && MatchesPrefix(s, pat)
    requires Pieces(s[|pat|..], pat, rep, g, h) && GapsClean(g, pat)
    ensures Pieces(s, pat, rep, gaps, hits) && GapsClean(gaps, pat)
    ensures gaps == [""] + g && hits == [s[..|pat|]] + h
  {
    gaps, hits := [""] + g, [s[..|pat|]] + h;
    assert gaps[1..] == g && hits[1..] == h;
    assert Interleave(gaps, hits) == "" + s[..|pat|] + Interleave(g, h);
    assert s == s[..|pat|] + s[|pat|..];
    assert Strings.JoinWith(gaps, rep) == "" + rep + Strings.JoinWith(g, rep);
    assert !Occurs(pat, "");
    forall k | 0 <= k < |gaps| ensures !Occurs(pat, gaps[k]) {
      if k > 0 { assert gaps[k] == g[k - 1]; }
    }
    forall k | 0 <= k < |hits| ensures SameFold(hits[k], pat) {
      if k > 0 { assert hits[k] == h[k - 1]; }
    }
  }

  /** Step of the decomposition when the non-empty pattern does not match at the start of `s`. */
  lemma SkipStep(s: string, pat: string, rep: string, g: seq<string>, h: seq<string>)
    returns (gaps: seq<string>, hits: seq<string>)
    requires pat != [] && s != [] && !MatchesPrefix(s, pat)
    requires Pieces(s[1..], pat, rep, g, h) && GapsClean(g, pat)
    ensures Pieces(s, pat, rep, gaps, hits) && GapsClean(gaps, pat)
    ensures gaps == [[s[0]] + g[0]] + g[1..] && hits == h
  {
    gaps, hits := [[s[0]] + g[0]] + g[1..], h;
    InterleaveConsHead([s[0]], g, h);
    assert s == [s[0]] + s[1..];
    JoinConsHead([s[0]], g, rep);
    assert ReplaceAll(s, pat, rep) == [s[0]] + ReplaceAll(s[1..], pat, rep);
    assert !Occurs(pat, gaps[0]) by {
      InterleavePrefix(g, h);
      var a := [s[0]] + g[0];
      assert s[..|a|] == a;
      if MatchesPrefix(a, pat) {
        MatchesPrefixOfPrefix(a, s, pat);
        assert false;
      }
      OccursCons(pat, s[0], g[0]);
    }
    forall k | 0 <= k < |gaps| ensures !Occurs(pat, gaps[k]) {
      if k > 0 { assert gaps[k] == g[k]; }
    }
  }

  /** The decomposition `ReplaceAll` performs, stated with the predicates above. */
  lemma {:induction false} Decompose(s: string, pat: string, rep: string)
    returns (gaps: seq<string>, hits: seq<string>)
    ensures Pieces(s, pat, rep, gaps, hits)
    ensures pat != [] ==> GapsClean(gaps, pat) && Leftmost(gaps, hits, pat)
    ensures pat == [] ==> EmptyPieces(s, gaps, hits)
    decreases |s|
  {
    if pat == [] {
      if s == [] {
        gaps, hits := ["", ""], [""];
        assert SameFold(hits[0], pat);
      } else {
        var g, h := Decompose(s[1..], pat, rep);
        gaps, hits := EmptyPatternStep(s, rep, g, h);
      }
    } else if MatchesPrefix(s, pat) {
      var g, h := Decompose(s[|pat|..], pat, rep);
      gaps, hits := MatchStep(s, pat, rep, g, h);
      MatchLeftmost(s[..|pat|], pat, g, h);
    } else if s == [] {
      gaps, hits := [""], [];
    } else {
      var g, h := Decompose(s[1..], pat, rep);
      gaps, hits := SkipStep(s, pat, rep, g, h);
      SkipLeftmost(s, pat, g, h);
    }
  }

  /**
   * What global replacement does: the input splits into gaps and the matches
   * between them; every match equals the pattern up to case and is the
   * leftmost match from the end of the previous one, no gap contains the
   * (non-empty) pattern, and the output is the gaps joined by `rep`. The empty
   * pattern matches before every character and at the end.
   */
  lemma ReplaceAllPieces(s: string, pat: string, rep: string)
    returns (gaps: seq<string>, hits: seq<string>)
    ensures |gaps| == |hits| + 1
    ensures s == Interleave(gaps, hits)
    ensures ReplaceAll(s, pat, rep) == Strings.JoinWith(gaps, rep)
    ensures forall k :: 0 <= k < |hits| ==> SameFold(hits[k], pat)
    ensures pat != [] ==> forall k :: 0 <= k < |gaps| ==> !Occurs(pat, gaps[k])
    ensures pat != [] ==> forall k :: 0 <= k < |hits| ==> Search(gaps[k] + hits[k], pat) == |gaps[k]|
    ensures pat == [] ==> |hits| == |s| + 1 && gaps[0] == [] && gaps[|gaps| - 1] == []
    ensures pat == [] ==> forall k :: 0 < k < |gaps| - 1 ==> |gaps[k]| == 1
  {
    gaps, hits := Decompose(s, pat, rep);
  }
}
