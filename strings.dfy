/**
 * String helpers shared by the command handlers: JavaScript's
 * `Array.prototype.join` and `String.prototype.split` with a one-character
 * separator class, and the first whitespace-delimited token of a message.
 */
module Strings {

  import Wrappers

  /** True when no character of `s` belongs to `seps`. */
  predicate Free(s: string, seps: set<char>)
  {
    forall i :: 0 <= i < |s| ==> s[i] !in seps
  }

  /** Number of characters of `s` that belong to `seps`. */
  function CountIn(s: string, seps: set<char>): nat
  {
    if s == [] then 0 else (if s[0] in seps then 1 else 0) + CountIn(s[1..], seps)
  }

  /** `xs.join(sep)`: the elements of `xs` in order with `sep` between neighbours. */
  function JoinWith(xs: seq<string>, sep: string): string
  {
    if |xs| == 0 then ""
    else if |xs| == 1 then xs[0]
    else xs[0] + sep + JoinWith(xs[1..], sep)
  }

  /**
   * `s.split(re)` for a regular expression `re` that matches exactly one
   * character of `seps`: every separator character ends one piece and starts
   * the next, so consecutive separators give empty pieces and "" gives [""].
   */
  function Split(s: string, seps: set<char>): (pieces: seq<string>)
    ensures |pieces| == CountIn(s, seps) + 1
  {
    if s == [] then [""]
    else
      var rest := Split(s[1..], seps);
      if s[0] in seps then [""] + rest
      else [[s[0]] + rest[0]] + rest[1..]
  }

  /** No piece of a split contains a separator. */
  lemma {:induction false} SplitPiecesFree(s: string, seps: set<char>)
    ensures forall k :: 0 <= k < |Split(s, seps)| ==> Free(Split(s, seps)[k], seps)
  {
    if s != [] {
      SplitPiecesFree(s[1..], seps);
      var rest := Split(s[1..], seps);
      if s[0] !in seps {
        var head := [s[0]] + rest[0];
        assert Free(rest[0], seps);
        assert Free(head, seps) by {
          forall i | 0 <= i < |head| ensures head[i] !in seps {
            if i > 0 { assert head[i] == rest[0][i - 1]; }
          }
        }
      }
    }
  }

  /** The first piece of a split is the longest separator-free prefix. */
  lemma {:induction false} SplitHead(s: string, seps: set<char>)
    ensures var t := Split(s, seps)[0];
      |t| <= |s| && t == s[..|t|] && Free(t, seps) && (|t| < |s| ==> s[|t|] in seps)
  {
    if s != [] {
      SplitHead(s[1..], seps);
      SplitPiecesFree(s, seps);
      var rest := Split(s[1..], seps);
      if s[0] !in seps {
        assert Split(s, seps)[0] == [s[0]] + rest[0];
        assert s == [s[0]] + s[1..];
      }
    }
  }

  /** Joining after one more element appends a separator and that element. */
  lemma {:induction false} JoinWithSnoc(xs: seq<string>, x: string, sep: string)
    requires |xs| > 0
    ensures JoinWith(xs + [x], sep) == JoinWith(xs, sep) + sep + x
  {
    if |xs| == 1 {
      assert xs + [x] == [xs[0], x];
    } else {
      assert (xs + [x])[1..] == xs[1..] + [x];
      JoinWithSnoc(xs[1..], x, sep);
    }
  }

  /** Splitting at a single separator character and joining back with it gives the original string. */
  lemma {:induction false} JoinSplit(s: string, c: char)
    ensures JoinWith(Split(s, {c}), [c]) == s
  {
    if s != [] {
      JoinSplit(s[1..], c);
      var rest := Split(s[1..], {c});
      if s[0] == c {
        assert Split(s, {c}) == [""] + rest;
        assert ([""] + rest)[1..] == rest;
      } else {
        var pieces := Split(s, {c});
        assert pieces == [[s[0]] + rest[0]] + rest[1..];
        assert pieces[1..] == rest[1..];
        assert s == [s[0]] + s[1..];
      }
    }
  }

  /** Splitting a separator-free prefix off a string leaves the rest of the split intact. */
  lemma {:induction false} SplitFreePrefix(x: string, t: string, seps: set<char>)
    requires Free(x, seps)
    ensures Split(x + t, seps) == [x + Split(t, seps)[0]] + Split(t, seps)[1..]
  {
    if x != [] {
      assert (x + t)[1..] == x[1..] + t;
      assert Free(x[1..], seps) by {
        forall i | 0 <= i < |x[1..]| ensures x[1..][i] !in seps {
          assert x[1..][i] == x[i + 1];
        }
      }
      SplitFreePrefix(x[1..], t, seps);
      assert (x + t)[0] == x[0] && x[0] !in seps;
      var rest := Split(x[1..] + t, seps);
      assert Split(x + t, seps) == [[x[0]] + rest[0]] + rest[1..];
      var split := Split(t, seps);
      assert rest[0] == x[1..] + split[0] && rest[1..] == split[1..];
      assert [x[0]] + (x[1..] + split[0]) == x + split[0] by {
        assert x == [x[0]] + x[1..];
      }
    } else {
      var split := Split(t, seps);
      assert x + t == t && x + split[0] == split[0];
      assert split == [split[0]] + split[1..];
    }
  }

  /**
   * Joining separator-free elements with one separator character and
   * splitting again gives the elements back.
   */
  lemma {:induction false} SplitJoin(xs: seq<string>, c: char, seps: set<char>)
    requires |xs| > 0 && c in seps
    requires forall k :: 0 <= k < |xs| ==> Free(xs[k], seps)
    ensures Split(JoinWith(xs, [c]), seps) == xs
  {
    if |xs| == 1 {
      SplitFreePrefix(xs[0], "", seps);
      assert xs[0] + "" == xs[0];
    } else {
      var tail := JoinWith(xs[1..], [c]);
      SplitJoin(xs[1..], c, seps);
      assert JoinWith(xs, [c]) == xs[0] + ([c] + tail);
      SplitFreePrefix(xs[0], [c] + tail, seps);
      assert ([c] + tail)[1..] == tail;
      assert Split([c] + tail, seps) == [""] + xs[1..];
      assert ([""] + xs[1..])[1..] == xs[1..];
      assert xs[0] + "" == xs[0];
      assert xs == [xs[0]] + xs[1..];
    }
  }

  /** The characters JavaScript's `\s` class matches (ECMAScript WhiteSpace and LineTerminator). */
  const Whitespace: set<char> := {
    '\t', '\n', '\U{B}', '\U{C}', '\r', ' ', '\U{A0}', '\U{1680}',
    '\U{2000}', '\U{2001}', '\U{2002}', '\U{2003}', '\U{2004}', '\U{2005}',
    '\U{2006}', '\U{2007}', '\U{2008}', '\U{2009}', '\U{200A}',
    '\U{2028}', '\U{2029}', '\U{202F}', '\U{205F}', '\U{3000}', '\U{FEFF}'
  }

  /** `content.split(/\s/)[0]`: the command token at the start of a message. */
  function FirstToken(s: string): (t: string)
    ensures |t| <= |s| && t == s[..|t|]
    ensures Free(t, Whitespace)
    ensures |t| < |s| ==> s[|t|] in Whitespace
  {
    SplitHead(s, Whitespace);
    Split(s, Whitespace)[0]
  }

  /** Visible ASCII characters, `!` to `~`, are not whitespace. */
  lemma VisibleNotWhitespace(s: string)
    requires forall i :: 0 <= i < |s| ==> '!' <= s[i] <= '~'
    ensures Free(s, Whitespace)
  {
  }

  /** A message without whitespace is its own command token. */
  lemma FirstTokenOfWord(s: string)
    requires Free(s, Whitespace)
    ensures FirstToken(s) == s
  {
  }

  /** A word followed by whitespace, or by nothing, is the command token of the message. */
  lemma FirstTokenOfCommand(w: string, rest: string)
    requires Free(w, Whitespace)
    requires rest == [] || rest[0] in Whitespace
    ensures FirstToken(w + rest) == w
  {
    var s := w + rest;
    assert s[..|w|] == w;
    assert |FirstToken(s)| == |w|;
  }

  /** The `i`-th piece of `content.split(/\s/)`, or `None` (JavaScript's `undefined`) past the end. */
  function TokenAt(s: string, i: nat): (t: Wrappers.Option<string>)
    ensures t.Some? <==> i <= CountIn(s, Whitespace)
    ensures t.Some? ==> Free(t.value, Whitespace)
  {
    var pieces := Split(s, Whitespace);
    SplitPiecesFree(s, Whitespace);
    if i < |pieces| then Wrappers.Some(pieces[i]) else Wrappers.None
  }
}
