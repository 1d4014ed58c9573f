/**
 * The two pure helpers of the multimedia commands, as test/multimediaSpec.js
 * fixes their behaviour: `encodeUrl`, the application/x-www-form-urlencoded
 * serialisation of a search term (WHATWG URL Standard, section 5.2), and
 * `buildQuery`, the Imgur search path built from a command's options.
 */
module Multimedia {

  import opened Wrappers
  import Utf8

  /** Characters the form encoding leaves as they are: ASCII letters and digits and `*`, `-`, `.`, `_`. */
  predicate Unreserved(c: char)
  {
    'a' <= c <= 'z' || 'A' <= c <= 'Z' || '0' <= c <= '9' || c == '*' || c == '-' || c == '.' || c == '_'
  }

  /** An upper-case hexadecimal digit. */
  predicate IsUpperHex(c: char)
  {
    '0' <= c <= '9' || 'A' <= c <= 'F'
  }

  /** A hexadecimal digit of either case, as a percent-decoder accepts it. */
  predicate IsHex(c: char)
  {
    IsUpperHex(c) || 'a' <= c <= 'f'
  }

  /** The upper-case hexadecimal digit for `n`. */
  function HexDigit(n: nat): (c: char)
    requires n < 16
    ensures IsUpperHex(c)
  {
    if n < 10 then ('0' as int + n) as char else ('A' as int + n - 10) as char
  }

  /** The value of a hexadecimal digit. */
  function HexValue(c: char): (n: nat)
    requires IsHex(c)
    ensures n < 16
  {
    if '0' <= c <= '9' then c as int - '0' as int
    else if 'A' <= c <= 'F' then c as int - 'A' as int + 10
    else c as int - 'a' as int + 10
  }

  /** `%XX` for every byte, with upper-case hexadecimal digits (RFC 3986, section 2.1). */
  function Percent(bs: seq<Utf8.Byte>): (t: string)
    ensures |t| == 3 * |bs|
  {
    if bs == [] then [] else ['%', HexDigit(bs[0] / 16), HexDigit(bs[0] % 16)] + Percent(bs[1..])
  }

  /** The encoding of one character: itself, `+` for a space, or its UTF-8 bytes percent-encoded. */
  function EncodeChar(c: char): (t: string)
    ensures 1 <= |t| <= 12
    ensures |t| == 1 <==> Unreserved(c) || c == ' '
  {
    if Unreserved(c) then [c] else if c == ' ' then "+" else Percent(Utf8.EncodeChar(c))
  }

  /** `encodeUrl(s)`: the form encoding of `s`, character by character. */
  function EncodeUrl(s: string): (t: string)
    ensures |s| <= |t| <= 12 * |s|
    ensures |t| == |s| <==> forall i :: 0 <= i < |s| ==> Unreserved(s[i]) || s[i] == ' '
  {
    if s == [] then [] else EncodeChar(s[0]) + EncodeUrl(s[1..])
  }

  /** The shape of an encoded term: unreserved characters, `+`, and `%XX` with upper-case digits. */
  predicate FormEncoded(t: string)
    decreases |t|
  {
    t == [] ||
    ((Unreserved(t[0]) || t[0] == '+') && FormEncoded(t[1..])) ||
    (|t| >= 3 && t[0] == '%' && IsUpperHex(t[1]) && IsUpperHex(t[2]) && FormEncoded(t[3..]))
  }

  /**
   * Percent-decoding as the form parser does it: `%XX` gives a byte, `+`
   * gives a space, and any other character gives its own UTF-8 bytes.
   */
  function PercentDecode(t: string): seq<Utf8.Byte>
    decreases |t|
  {
    if t == [] then []
    else if t[0] == '%' && |t| >= 3 && IsHex(t[1]) && IsHex(t[2]) then
      [HexValue(t[1]) * 16 + HexValue(t[2])] + PercentDecode(t[3..])
    else if t[0] == '+' then [0x20] + PercentDecode(t[1..])
    else Utf8.EncodeChar(t[0]) + PercentDecode(t[1..])
  }

  /** The form decoding of one value: percent-decode, then read the bytes as UTF-8. */
  function DecodeForm(t: string): Option<string>
  {
    Utf8.Decode(PercentDecode(t))
  }

  /** Reading back a digit gives the value it was written for. */
  lemma HexDigitValue(n: nat)
    requires n < 16
    ensures IsHex(HexDigit(n)) && HexValue(HexDigit(n)) == n
  {
  }

  /** Putting the first byte back in front of the rest and what follows. */
  lemma ConsThenAppend(bs: seq<Utf8.Byte>, more: seq<Utf8.Byte>)
    requires bs != []
    ensures [bs[0]] + (bs[1..] + more) == bs + more
  {
    assert [bs[0]] + bs[1..] == bs;
  }

  /** Percent-decoding reads back the bytes `Percent` wrote, whatever follows them. */
  lemma {:induction false} PercentDecodePercent(bs: seq<Utf8.Byte>, rest: string)
    ensures PercentDecode(Percent(bs) + rest) == bs + PercentDecode(rest)
    decreases |bs|
  {
    if bs != [] {
      var b := bs[0];
      var hi, lo := HexDigit(b / 16), HexDigit(b % 16);
      HexDigitValue(b / 16);
      HexDigitValue(b % 16);
      var tail := Percent(bs[1..]) + rest;
      var t := Percent(bs) + rest;
      assert t == ['%', hi, lo] + tail;
      assert t[0] == '%' && t[1] == hi && t[2] == lo && t[3..] == tail;
      assert PercentDecode(t) == [HexValue(hi) * 16 + HexValue(lo)] + PercentDecode(tail);
      assert HexValue(hi) * 16 + HexValue(lo) == b;
      PercentDecodePercent(bs[1..], rest);
      ConsThenAppend(bs, PercentDecode(rest));
    } else {
      assert Percent(bs) + rest == rest;
    }
  }

  lemma PercentDecodeEncodedChar(c: char, rest: string)
    ensures PercentDecode(EncodeChar(c) + rest) == Utf8.EncodeChar(c) + PercentDecode(rest)
  {
    var t := EncodeChar(c) + rest;
    if Unreserved(c) || c == ' ' {
      assert t[1..] == rest;
    } else {
      PercentDecodePercent(Utf8.EncodeChar(c), rest);
    }
  }

  /** Percent-decoding an encoded term gives the UTF-8 bytes of the original. */
  lemma {:induction false} PercentDecodeEncodeUrl(s: string)
    ensures PercentDecode(EncodeUrl(s)) == Utf8.Encode(s)
  {
    if s != [] {
      PercentDecodeEncodedChar(s[0], EncodeUrl(s[1..]));
      PercentDecodeEncodeUrl(s[1..]);
    }
  }

  /** The form decoding of `encodeUrl(s)` is `s`: the encoding loses nothing. */
  lemma EncodeUrlRoundTrip(s: string)
    ensures DecodeForm(EncodeUrl(s)) == Some(s)
  {
    PercentDecodeEncodeUrl(s);
    Utf8.DecodeEncode(s);
  }

  lemma FormEncodedPercent(bs: seq<Utf8.Byte>, rest: string)
    requires FormEncoded(rest)
    ensures FormEncoded(Percent(bs) + rest)
    decreases |bs|
  {
    if bs != [] {
      var t := Percent(bs) + rest;
      var hi, lo := HexDigit(bs[0] / 16), HexDigit(bs[0] % 16);
      assert t == ['%', hi, lo] + (Percent(bs[1..]) + rest);
      assert t[0] == '%' && t[1] == hi && t[2] == lo;
      FormEncodedPercent(bs[1..], rest);
      assert t[3..] == Percent(bs[1..]) + rest;
    } else {
      assert Percent(bs) + rest == rest;
    }
  }

  /** Every encoded term is made of unreserved characters, `+` and upper-case `%XX` triplets. */
  lemma {:induction false} EncodeUrlIsFormEncoded(s: string)
    ensures FormEncoded(EncodeUrl(s))
  {
    if s != [] {
      EncodeUrlIsFormEncoded(s[1..]);
      var c := s[0];
      var t := EncodeUrl(s);
      if Unreserved(c) || c == ' ' {
        assert t[1..] == EncodeUrl(s[1..]);
      } else {
        FormEncodedPercent(Utf8.EncodeChar(c), EncodeUrl(s[1..]));
      }
    }
  }

  /** A term of unreserved characters, ASCII letters among them, is left as it is. */
  lemma {:induction false} EncodeUrlKeepsUnreserved(s: string)
    requires forall i :: 0 <= i < |s| ==> Unreserved(s[i])
    ensures EncodeUrl(s) == s
  {
    if s != [] {
      EncodeUrlKeepsUnreserved(s[1..]);
      assert s == [s[0]] + s[1..];
    }
  }

  /** A character from U+00C0 to U+00FF is written as `%C3` and the triplet of its second byte. */
  lemma EncodeLatinLetter(c: char)
    requires 0xC0 <= c as int < 0x100
    ensures EncodeChar(c) == "%C3" + ['%', HexDigit((0x80 + c as int - 0xC0) / 16), HexDigit((0x80 + c as int - 0xC0) % 16)]
  {
    var cp := c as int;
    var bs := Utf8.EncodeChar(c);
    assert cp / 64 == 3 && cp % 64 == cp - 0xC0;
    assert bs == [0xC3, 0x80 + cp - 0xC0];
    assert HexDigit(0xC3 / 16) == 'C' && HexDigit(0xC3 % 16) == '3';
    assert bs[1..] == [bs[1]];
    assert Percent([bs[1]]) == ['%', HexDigit(bs[1] / 16), HexDigit(bs[1] % 16)] by {
      assert [bs[1]][1..] == [];
    }
    assert Percent(bs) == ['%', 'C', '3'] + Percent(bs[1..]);
  }

  /** The triplets of é, è, ä and û. */
  lemma EncodeAccentedLetters()
    ensures EncodeChar('\U{E9}') == "%C3%A9" && EncodeChar('\U{E8}') == "%C3%A8"
    ensures EncodeChar('\U{E4}') == "%C3%A4" && EncodeChar('\U{FB}') == "%C3%BB"
  {
    EncodeLatinLetter('\U{E9}');
    EncodeLatinLetter('\U{E8}');
    EncodeLatinLetter('\U{E4}');
    EncodeLatinLetter('\U{FB}');
    assert HexDigit(0xA9 / 16) == 'A' && HexDigit(0xA9 % 16) == '9';
    assert HexDigit(0xA8 % 16) == '8' && HexDigit(0xA4 % 16) == '4';
    assert HexDigit(0xBB / 16) == 'B' && HexDigit(0xBB % 16) == 'B';
  }

  /** A four-character term encodes character by character. */
  lemma EncodeUrlFour(a: char, b: char, c: char, d: char)
    ensures EncodeUrl([a, b, c, d]) == EncodeChar(a) + EncodeChar(b) + EncodeChar(c) + EncodeChar(d)
  {
    assert EncodeUrl([d]) == EncodeChar(d) by {
      assert [d][1..] == [];
    }
    assert EncodeUrl([c, d]) == EncodeChar(c) + EncodeUrl([d]) by {
      assert [c, d][1..] == [d];
    }
    assert EncodeUrl([b, c, d]) == EncodeChar(b) + EncodeUrl([c, d]) by {
      assert [b, c, d][1..] == [c, d];
    }
    assert EncodeUrl([a, b, c, d]) == EncodeChar(a) + EncodeUrl([b, c, d]) by {
      assert [a, b, c, d][1..] == [b, c, d];
    }
    ConcatFour(EncodeChar(a), EncodeChar(b), EncodeChar(c), EncodeChar(d));
  }

  /** Concatenation of four strings does not depend on grouping. */
  lemma ConcatFour(w: string, x: string, y: string, z: string)
    ensures w + (x + (y + z)) == w + x + y + z
  {
  }


  /** Accented letters become the `%XX` triplets of their UTF-8 bytes. */
  lemma EncodeUrlAccents()
    ensures EncodeUrl("\U{E9}\U{E8}\U{E4}\U{FB}") == "%C3%A9%C3%A8%C3%A4%C3%BB"
  {
    EncodeAccentedLetters();
    EncodeUrlFour('\U{E9}', '\U{E8}', '\U{E4}', '\U{FB}');
  }

  /** Spaces become `+`. */
  lemma EncodeUrlSpaces()
    ensures EncodeUrl("a b c") == "a+b+c"
  {
    var s := "a b c";
    assert s[1..] == " b c" && s[2..] == "b c" && s[3..] == " c" && s[4..] == "c";
  }

  /** What `buildQuery` returns: an Imgur search path, or the `-1` sentinel of the help option. */
  datatype Query = Path(path: string) | Help

  /** A token that names an option: it starts with `-`. */
  predicate IsOption(t: string)
  {
    |t| > 0 && t[0] == '-'
  }

  /** The path segments of the options, `/name` for each `-name`, in option order. */
  function OptionPath(args: seq<string>): string
  {
    if args == [] then "" else (if IsOption(args[0]) then "/" + args[0][1..] else "") + OptionPath(args[1..])
  }

  /** The search terms, each followed by a space, in order. */
  function SearchTerms(args: seq<string>): string
  {
    if args == [] then "" else (if IsOption(args[0]) then "" else args[0] + " ") + SearchTerms(args[1..])
  }

  /**
   * `buildQuery(opts)`: `opts[0]` is the command token and is skipped; a
   * `-help` option gives the sentinel, and otherwise the options become path
   * segments before `/?q=` and the search terms follow it.
   */
  function BuildQuery(opts: seq<string>): (q: Query)
    requires |opts| > 0
    ensures q.Help? <==> "-help" in opts[1..]
    ensures q.Path? ==> q.path == OptionPath(opts[1..]) + "/?q=" + SearchTerms(opts[1..])
  {
    var args := opts[1..];
    if "-help" in args then Help else Path(OptionPath(args) + "/?q=" + SearchTerms(args))
  }

  /** The command token never shows in the query. */
  lemma BuildQueryIgnoresCommand(a: string, b: string, args: seq<string>)
    ensures BuildQuery([a] + args) == BuildQuery([b] + args)
  {
    assert ([a] + args)[1..] == args == ([b] + args)[1..];
  }

  /** A further option adds its segment after the earlier ones and leaves the terms alone. */
  lemma {:induction false} OptionAppended(args: seq<string>, option: string)
    requires IsOption(option)
    ensures OptionPath(args + [option]) == OptionPath(args) + "/" + option[1..]
    ensures SearchTerms(args + [option]) == SearchTerms(args)
  {
    if args != [] {
      assert (args + [option])[1..] == args[1..] + [option];
      OptionAppended(args[1..], option);
    } else {
      assert [option][1..] == [];
    }
  }

  /** A further search term goes after the earlier ones and leaves the path alone. */
  lemma {:induction false} TermAppended(args: seq<string>, term: string)
    requires !IsOption(term)
    ensures OptionPath(args + [term]) == OptionPath(args)
    ensures SearchTerms(args + [term]) == SearchTerms(args) + term + " "
  {
    if args != [] {
      assert (args + [term])[1..] == args[1..] + [term];
      TermAppended(args[1..], term);
    } else {
      assert [term][1..] == [];
    }
  }

  /** A search term is not the help option. */
  lemma TermIsNotHelp(term: string)
    requires !IsOption(term)
    ensures term != "-help"
  {
    assert IsOption("-help");
  }

  /** A plain search: `/?q=` and the term. */
  lemma BuildQuerySimple(cmd: string, term: string)
    requires !IsOption(term)
    ensures BuildQuery([cmd, term]) == Path("/?q=" + term + " ")
  {
    var args := [term];
    assert [cmd, term][1..] == args;
    TermIsNotHelp(term);
    assert "-help" !in args;
    assert [] + [term] == args;
    TermAppended([], term);
  }

  /** With a sort option: `/top/?q=` and the term. */
  lemma BuildQuerySorted(cmd: string, term: string)
    requires !IsOption(term)
    ensures BuildQuery([cmd, "-top", term]) == Path("/top/?q=" + term + " ")
  {
    var opts := [cmd, "-top", term];
    var options := ["-top"];
    var args := options + [term];
    assert opts[1..] == args;
    assert "-help" !in args by {
      TermIsNotHelp(term);
      assert |"-top"| != |"-help"|;
    }
    assert OptionPath(args) == "/top" && SearchTerms(args) == term + " " by {
      assert [] + ["-top"] == options;
      OptionAppended([], "-top");
      assert "-top"[1..] == "top";
      TermAppended(options, term);
    }
    assert "/top" + "/?q=" + (term + " ") == "/top/?q=" + term + " " by {
      assert "/top" + "/?q=" == "/top/?q=";
    }
  }



  /** With sort and window options: `/top/week/?q=` and the term, segments in option order. */
  lemma BuildQuerySortedWindow(cmd: string, term: string)
    requires !IsOption(term)
    ensures BuildQuery([cmd, "-top", "-week", term]) == Path("/top/week/?q=" + term + " ")
  {
    var opts := [cmd, "-top", "-week", term];
    var options := ["-top", "-week"];
    var args := options + [term];
    assert opts[1..] == args;
    assert "-help" !in args by {
      TermIsNotHelp(term);
      assert |"-top"| != |"-help"| && "-week"[1] != "-help"[1];
    }
    assert OptionPath(options) == "/top/week" by {
      assert [] + ["-top"] == ["-top"] && ["-top"] + ["-week"] == options;
      OptionAppended([], "-top");
      OptionAppended(["-top"], "-week");
      assert "-top"[1..] == "top" && "-week"[1..] == "week";
    }
    assert SearchTerms(options) == "" by {
      OptionAppended([], "-top");
      OptionAppended(["-top"], "-week");
      assert [] + ["-top"] == ["-top"] && ["-top"] + ["-week"] == options;
    }
    TermAppended(options, term);
  }

  /** The help option gives the sentinel whatever else is given. */
  lemma BuildQueryHelp(cmd: string, before: seq<string>, after: seq<string>)
    ensures BuildQuery([cmd] + before + ["-help"] + after) == Help
  {
    assert ([cmd] + before + ["-help"] + after)[1..] == before + ["-help"] + after;
    assert (before + ["-help"] + after)[|before|] == "-help";
  }
}
