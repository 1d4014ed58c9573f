/**
 * The word filter of src/bot/censorship.js: an ordered list of
 * (pattern, replacement) rules from the configuration, the `!orwell` listing,
 * the message scan that censors the first matching rule, and the owner-only
 * `!1984` request that adds a rule.
 */
module Censorship {

  import opened Wrappers
  import Strings
  import Patterns

  /** One entry of `config.censored`: `[pattern, replacement]`. */
  datatype Rule = Rule(pattern: string, replacement: string)

  /** The localised strings the handlers reply with, for the active language. */
  datatype Texts = Texts(
    displayListPart01: string,
    displayListPart02: string,
    censorship: string,
    badPermission: string,
    addCensoredWordOK: string,
    addCensoredWordKO: string)

  /** Where a reply goes: the message's channel or the author's private messages. */
  datatype Reply = InChannel(text: string) | InPrivate(text: string)

  /** The rule patterns, in declaration order. */
  function PatternList(rules: seq<Rule>): (ps: seq<string>)
    ensures |ps| == |rules| && forall i :: 0 <= i < |rules| ==> ps[i] == rules[i].pattern
  {
    seq(|rules|, i requires 0 <= i < |rules| => rules[i].pattern)
  }

  /** The rule replacements, in declaration order. */
  function ReplacementList(rules: seq<Rule>): (rs: seq<string>)
    ensures |rs| == |rules| && forall i :: 0 <= i < |rules| ==> rs[i] == rules[i].replacement
  {
    seq(|rules|, i requires 0 <= i < |rules| => rules[i].replacement)
  }

  /** `s.substr(0, n)`: a length of zero or less gives "", one past the end gives all of `s`. */
  function Substr0(s: string, n: int): (r: string)
    ensures |r| == if n <= 0 then 0 else if n >= |s| then |s| else n
    ensures r == s[..|r|]
  {
    if n <= 0 then "" else if n >= |s| then s else s[..n]
  }

  /** Taking all but the last character of a list built with a trailing separator drops exactly that separator. */
  lemma Substr0DropsLast(x: string, sep: char)
    ensures Substr0(x + [sep], |x + [sep]| - 1) == x
  {
    assert (x + [sep])[..|x|] == x;
  }

  /**
   * `displayCensorList`: builds "p1,p2,...," and "r1,r2,...," in one pass,
   * drops the trailing comma of each, and replies with both lists between
   * the two localised parts.
   */
  method DisplayCensorList(rules: seq<Rule>, texts: Texts) returns (reply: string)
    ensures reply == texts.displayListPart01 + " " + Strings.JoinWith(PatternList(rules), ",") + " "
                     + texts.displayListPart02 + " " + Strings.JoinWith(ReplacementList(rules), ",")
  {
    var censored := "";
    var approved := "";
    ghost var ps, rs := PatternList(rules), ReplacementList(rules);
    var i := 0;
    while i < |rules|
      invariant 0 <= i <= |rules|
      invariant censored == if i == 0 then "" else Strings.JoinWith(ps[..i], ",") + ","
      invariant approved == if i == 0 then "" else Strings.JoinWith(rs[..i], ",") + ","
    {
      assert ps[..i + 1] == ps[..i] + [ps[i]] && rs[..i + 1] == rs[..i] + [rs[i]];
      if i > 0 {
        Strings.JoinWithSnoc(ps[..i], ps[i], ",");
        Strings.JoinWithSnoc(rs[..i], rs[i], ",");
      }
      censored := censored + rules[i].pattern + ",";
      approved := approved + rules[i].replacement + ",";
      i := i + 1;
    }
    assert ps[..i] == ps && rs[..i] == rs;
    censored := Substr0(censored, |censored| - 1);
    approved := Substr0(approved, |approved| - 1);
    reply := texts.displayListPart01 + " " + censored + " " + texts.displayListPart02 + " " + approved;
  }

  /** Index of the first rule, in declaration order, whose pattern occurs in `text`. */
  function FirstMatch(rules: seq<Rule>, text: string): (k: Option<nat>)
    ensures k.Some? ==> k.value < |rules| && Patterns.Occurs(rules[k.value].pattern, text)
    ensures k.Some? ==> forall j :: 0 <= j < k.value ==> !Patterns.Occurs(rules[j].pattern, text)
    ensures k.None? ==> forall j :: 0 <= j < |rules| ==> !Patterns.Occurs(rules[j].pattern, text)
  {
    if rules == [] then None
    else if Patterns.Occurs(rules[0].pattern, text) then Some(0)
    else match FirstMatch(rules[1..], text)
      case None => None
      case Some(k) => Some(k + 1)
  }

  /**
   * `censor`: tries the rules in order; the first whose pattern occurs has every
   * occurrence replaced, the result is prefixed with the censorship notice and
   * sent with the author's name, the message is deleted and 0 is returned.
   * With no matching rule nothing is sent or deleted and 1 is returned.
   */
  method Censor(rules: seq<Rule>, texts: Texts, content: string)
    returns (code: int, reply: Option<string>, deleted: bool)
    ensures FirstMatch(rules, content).None? ==> code == 1 && reply == None && !deleted
    ensures FirstMatch(rules, content).Some? ==>
      var rule := rules[FirstMatch(rules, content).value];
      code == 0 && deleted &&
      reply == Some(texts.censorship + " " + Patterns.ReplaceAll(content, rule.pattern, rule.replacement))
  {
    var i := 0;
    while i < |rules|
      invariant 0 <= i <= |rules|
      invariant forall j :: 0 <= j < i ==> !Patterns.Occurs(rules[j].pattern, content)
    {
      var words := rules[i];
      if Patterns.Search(content, words.pattern) != -1 {
        var censored := Patterns.ReplaceAll(content, words.pattern, words.replacement);
        censored := texts.censorship + " " + censored;
        return 0, Some(censored), true;
      }
      i := i + 1;
    }
    return 1, None, false;
  }

  /**
   * Appending rules never changes the verdict on a message an earlier rule
   * already catches; otherwise the first match, if any, is among the new rules.
   */
  lemma {:induction false} FirstMatchAppend(rules: seq<Rule>, more: seq<Rule>, text: string)
    ensures FirstMatch(rules, text).Some? ==> FirstMatch(rules + more, text) == FirstMatch(rules, text)
    ensures FirstMatch(rules, text).None? ==>
      match FirstMatch(more, text)
      case None => FirstMatch(rules + more, text).None?
      case Some(k) => FirstMatch(rules + more, text) == Some(|rules| + k)
  {
    if rules == [] {
      assert rules + more == more;
    } else {
      assert (rules + more)[0] == rules[0];
      assert (rules + more)[1..] == rules[1..] + more;
      FirstMatchAppend(rules[1..], more, text);
    }
  }

  /** The store request the owner's command makes: `config.addCensoredWord(opts[1], opts[2], ...)`. */
  datatype StoreCall = StoreCall(pattern: Option<string>, replacement: Option<string>)

  /** What `addCensoredWord` does: the store request it makes, if any, and its reply. */
  datatype AddOutcome = AddOutcome(call: Option<StoreCall>, reply: Reply)

  /**
   * `addCensoredWord`: only the guild owner may add a rule; the owner's
   * message is split at every whitespace character and its second and third
   * pieces go to the store, whose callback reports success or failure in a
   * private message. Anyone else gets the permission notice in the channel.
   */
  function AddCensoredWord(texts: Texts, member: string, owner: string, content: string, storeFailed: bool)
    : (out: AddOutcome)
    ensures out.call.None? <==> member != owner
    ensures member != owner ==> out.reply == InChannel(texts.badPermission)
    ensures member == owner ==>
      out.call == Some(StoreCall(Strings.TokenAt(content, 1), Strings.TokenAt(content, 2))) &&
      out.reply == InPrivate(if storeFailed then texts.addCensoredWordKO else texts.addCensoredWordOK)
  {
    if member == owner then
      var call := StoreCall(Strings.TokenAt(content, 1), Strings.TokenAt(content, 2));
      AddOutcome(Some(call), InPrivate(if storeFailed then texts.addCensoredWordKO else texts.addCensoredWordOK))
    else
      AddOutcome(None, InChannel(texts.badPermission))
  }

  /**
   * An owner's "!1984 pattern replacement" (words separated by single spaces,
   * none containing whitespace) sends exactly that pattern and replacement to the store.
   */
  lemma AddCensoredWordTokens(texts: Texts, owner: string, command: string, pattern: string,
                              replacement: string, rest: seq<string>, storeFailed: bool)
    requires forall w :: w in [command, pattern, replacement] + rest ==> Strings.Free(w, Strings.Whitespace)
    ensures var content := Strings.JoinWith([command, pattern, replacement] + rest, " ");
      AddCensoredWord(texts, owner, owner, content, storeFailed).call
        == Some(StoreCall(Some(pattern), Some(replacement)))
  {
    var words := [command, pattern, replacement] + rest;
    forall k | 0 <= k < |words| ensures Strings.Free(words[k], Strings.Whitespace) {
      assert words[k] in words;
    }
    Strings.SplitJoin(words, ' ', Strings.Whitespace);
  }

  /**
   * The listing round-trips: when no pattern contains a comma, splitting the
   * listed patterns at commas gives the rule patterns back, one per rule.
   */
  lemma ListedPatternsRoundTrip(rules: seq<Rule>)
    requires |rules| > 0
    requires forall i :: 0 <= i < |rules| ==> Strings.Free(rules[i].pattern, {','})
    ensures Strings.Split(Strings.JoinWith(PatternList(rules), ","), {','}) == PatternList(rules)
  {
    Strings.SplitJoin(PatternList(rules), ',', {','});
  }
}
