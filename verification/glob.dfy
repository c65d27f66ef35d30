/**
 * Shell-style pattern matching as done by Python's fnmatch.fnmatch on a
 * POSIX system (no case folding). A pattern is first translated into a
 * sequence of tokens, the way fnmatch.translate builds a regular expression,
 * and the tokens must then match the whole name.
 */
module Glob {

  /** One member of a bracket class: a single character or an inclusive range. */
  datatype ClassItem = Single(c: char) | Range(lo: char, hi: char)

  datatype Token =
    | AnyString                                         // `*`
    | AnyChar                                           // `?`
    | Literal(c: char)                                  // any other character, or an unclosed `[`
    | CharClass(negated: bool, items: seq<ClassItem>)   // `[...]` or `[!...]`

  /** The body of a bracket class, read left to right: `x-y` with a character
      after the hyphen is a range, anything else stands for itself. A
      reversed range such as `z-a` contains nothing. */
  function ParseClassItems(body: string): seq<ClassItem>
    decreases |body|
  {
    if |body| == 0 then []
    else if |body| >= 3 && body[1] == '-' then [Range(body[0], body[2])] + ParseClassItems(body[3..])
    else [Single(body[0])] + ParseClassItems(body[1..])
  }

  predicate InItem(item: ClassItem, c: char) {
    match item
    case Single(x) => c == x
    case Range(lo, hi) => lo <= c <= hi
  }

  predicate InClass(items: seq<ClassItem>, c: char) {
    exists i :: 0 <= i < |items| && InItem(items[i], c)
  }

  /** The first position at or after `j` that holds `]`, or |pat| if none does. */
  function CloseBracket(pat: string, j: nat): (r: nat)
    requires j <= |pat|
    ensures j <= r <= |pat|
    ensures r < |pat| ==> pat[r] == ']'
    ensures forall q :: j <= q < r ==> pat[q] != ']'
    decreases |pat| - j
  {
    if j == |pat| || pat[j] == ']' then j else CloseBracket(pat, j + 1)
  }

  /** Translation of a pattern into tokens. After `[`, an optional `!`
      negates the class and a `]` right after that is a member; the class
      ends at the next `]`. A `[` that is never closed is an ordinary
      character. */
  function Tokenize(pat: string): seq<Token>
    decreases |pat|
  {
    if |pat| == 0 then []
    else if pat[0] == '*' then [AnyString] + Tokenize(pat[1..])
    else if pat[0] == '?' then [AnyChar] + Tokenize(pat[1..])
    else if pat[0] == '[' then
      var negated := |pat| > 1 && pat[1] == '!';
      var start := if negated then 2 else 1;
      var j0 := if start < |pat| && pat[start] == ']' then start + 1 else start;
      var j := CloseBracket(pat, j0);
      if j == |pat| then [Literal('[')] + Tokenize(pat[1..])
      else [CharClass(negated, ParseClassItems(pat[start..j]))] + Tokenize(pat[j + 1..])
    else [Literal(pat[0])] + Tokenize(pat[1..])
  }

  /** The tokens match the whole of `s`; `*` takes as many characters as needed. */
  predicate MatchTokens(toks: seq<Token>, s: string)
    decreases |toks|, |s|
  {
    if |toks| == 0 then |s| == 0
    else match toks[0]
      case AnyString => MatchTokens(toks[1..], s) || (|s| > 0 && MatchTokens(toks, s[1..]))
      case AnyChar => |s| > 0 && MatchTokens(toks[1..], s[1..])
      case Literal(c) => |s| > 0 && s[0] == c && MatchTokens(toks[1..], s[1..])
      case CharClass(negated, items) =>
        |s| > 0 && InClass(items, s[0]) != negated && MatchTokens(toks[1..], s[1..])
  }

  /** fnmatch.fnmatch(name, pat). */
  predicate Fnmatch(name: string, pat: string) {
    MatchTokens(Tokenize(pat), name)
  }

  /** A pattern without `*`, `?` or `[` has no special characters. */
  predicate IsPlain(pat: string) {
    forall i :: 0 <= i < |pat| ==> pat[i] != '*' && pat[i] != '?' && pat[i] != '['
  }

  lemma {:induction false} PlainTokens(pat: string)
    requires IsPlain(pat)
    ensures |Tokenize(pat)| == |pat|
    ensures forall i :: 0 <= i < |pat| ==> Tokenize(pat)[i] == Literal(pat[i])
    decreases |pat|
  {
    if |pat| > 0 {
      assert IsPlain(pat[1..]) by {
        assert forall i :: 0 <= i < |pat[1..]| ==> pat[1..][i] == pat[i + 1];
      }
      PlainTokens(pat[1..]);
    }
  }

  lemma {:induction false} LiteralTokensMatch(toks: seq<Token>, pat: string, s: string)
    requires |toks| == |pat|
    requires forall i :: 0 <= i < |pat| ==> toks[i] == Literal(pat[i])
    ensures MatchTokens(toks, s) <==> s == pat
    decreases |pat|
  {
    if |pat| > 0 {
      LiteralTokensMatch(toks[1..], pat[1..], if |s| > 0 then s[1..] else s);
      if |s| > 0 && s[0] == pat[0] && s[1..] == pat[1..] {
        assert s == [s[0]] + s[1..] && pat == [pat[0]] + pat[1..];
      }
    }
  }

  /** A pattern with no special characters matches exactly itself, so in
      wildcard mode such a pattern acts as an exact-path exclusion. */
  lemma PlainPatternMatchesOnlyItself(pat: string, name: string)
    requires IsPlain(pat)
    ensures Fnmatch(name, pat) <==> name == pat
  {
    PlainTokens(pat);
    LiteralTokensMatch(Tokenize(pat), pat, name);
  }

  /** A leading `*` token matches `s` exactly when the remaining tokens match
      some suffix of `s`. */
  lemma {:induction false} StarMatchesSomeSuffix(toks: seq<Token>, s: string)
    requires |toks| > 0 && toks[0] == AnyString
    ensures MatchTokens(toks, s) <==> exists k :: 0 <= k <= |s| && MatchTokens(toks[1..], s[k..])
    decreases |s|
  {
    var rest := toks[1..];
    if |s| > 0 {
      assert MatchTokens(toks, s) == (MatchTokens(rest, s) || MatchTokens(toks, s[1..]));
      StarMatchesSomeSuffix(toks, s[1..]);
      if MatchTokens(toks, s) {
        if MatchTokens(rest, s) {
          assert s[0..] == s;
        } else {
          var k :| 0 <= k <= |s[1..]| && MatchTokens(rest, s[1..][k..]);
          assert s[1..][k..] == s[k + 1..];
        }
      } else {
        forall k | 0 <= k <= |s|
          ensures !MatchTokens(rest, s[k..])
        {
          if k == 0 {
            assert s[0..] == s;
          } else {
            assert s[1..][k - 1..] == s[k..];
          }
        }
      }
    } else {
      assert s[0..] == s;
    }
  }

  /** `*` alone matches every name. */
  lemma StarMatchesEverything(name: string)
    ensures Fnmatch(name, "*")
  {
    assert Tokenize("*") == [AnyString];
    StarMatchesSomeSuffix([AnyString], name);
    assert MatchTokens([AnyString][1..], name[|name|..]);
  }

  /** Plain characters in front of a pattern translate one token each. */
  lemma {:induction false} TokenizePlainPrefix(a: string, b: string)
    requires IsPlain(a)
    ensures Tokenize(a + b) == Tokenize(a) + Tokenize(b)
    decreases |a|
  {
    if |a| > 0 {
      assert (a + b)[0] == a[0];
      assert (a + b)[1..] == a[1..] + b;
      assert IsPlain(a[1..]) by {
        assert forall i :: 0 <= i < |a[1..]| ==> a[1..][i] == a[i + 1];
      }
      TokenizePlainPrefix(a[1..], b);
    } else {
      assert a + b == b;
    }
  }

  /** `[*]` in front of a pattern translates to a one-member class. */
  lemma TokenizeBracketStar(b: string)
    ensures Tokenize("[*]" + b) == [CharClass(false, [Single('*')])] + Tokenize(b)
  {
    var p := "[*]" + b;
    assert p[0] == '[' && p[1] == '*' && p[2] == ']';
    assert CloseBracket(p, 1) == 2;
    assert p[1..2] == "*";
    assert ParseClassItems("*") == [Single('*')];
    assert p[3..] == b;
  }

  /** Plain tokens in front consume exactly their own characters. */
  lemma {:induction false} PlainPrefixMatch(a: string, rest: seq<Token>, s: string)
    requires IsPlain(a)
    ensures MatchTokens(Tokenize(a) + rest, s) <==> a <= s && MatchTokens(rest, s[|a|..])
    decreases |a|
  {
    PlainTokens(a);
    if |a| == 0 {
      assert Tokenize(a) + rest == rest;
      assert s[0..] == s;
    } else {
      var toks := Tokenize(a) + rest;
      assert toks[0] == Literal(a[0]);
      assert IsPlain(a[1..]) by {
        assert forall i :: 0 <= i < |a[1..]| ==> a[1..][i] == a[i + 1];
      }
      PlainTokens(a[1..]);
      assert Tokenize(a) == [Literal(a[0])] + Tokenize(a[1..]);
      assert toks[1..] == Tokenize(a[1..]) + rest;
      if |s| > 0 {
        PlainPrefixMatch(a[1..], rest, s[1..]);
        if |a| <= |s| {
          assert s[1..][|a| - 1..] == s[|a|..];
        }
        assert a <= s <==> (a[0] == s[0] && a[1..] <= s[1..]);
      }
    }
  }

  /** The class `[*]` followed by plain tokens matches only `*` followed by
      those characters. */
  lemma StarClassThenPlain(b: string, t: string)
    requires IsPlain(b)
    ensures MatchTokens([CharClass(false, [Single('*')])] + Tokenize(b), t) <==> t == "*" + b
  {
    var toks := [CharClass(false, [Single('*')])] + Tokenize(b);
    assert toks[1..] == Tokenize(b);
    assert InItem([Single('*')][0], '*');
    assert forall c :: InClass([Single('*')], c) <==> c == '*';
    PlainTokens(b);
    if |t| > 0 {
      LiteralTokensMatch(Tokenize(b), b, t[1..]);
      assert t == [t[0]] + t[1..];
    }
  }

  /** Between plain characters, `[*]` stands for one literal `*` and not for
      any character or index: `a[*]b` matches only the name `a*b`. */
  lemma BracketStarMatchesOnlyStar(a: string, b: string, name: string)
    requires IsPlain(a) && IsPlain(b)
    ensures Fnmatch(name, a + "[*]" + b) <==> name == a + "*" + b
  {
    var rest := [CharClass(false, [Single('*')])] + Tokenize(b);
    assert a + "[*]" + b == a + ("[*]" + b);
    TokenizePlainPrefix(a, "[*]" + b);
    TokenizeBracketStar(b);
    assert Tokenize(a + "[*]" + b) == Tokenize(a) + rest;
    PlainPrefixMatch(a, rest, name);
    if a <= name {
      StarClassThenPlain(b, name[|a|..]);
      assert name == a + name[|a|..];
    }
    assert a + "*" + b == a + ("*" + b);
    if name == a + ("*" + b) {
      assert a <= name && name[|a|..] == "*" + b;
    }
  }

  /** The name `items*.id` is the one name that `items[*].id` matches;
      `items[0].id` is not matched. */
  lemma BracketStarIsALiteralStar()
    ensures Tokenize("[*]") == [CharClass(false, [Single('*')])]
    ensures Fnmatch("items*.id", "items[*].id")
    ensures !Fnmatch("items[0].id", "items[*].id")
  {
    TokenizeBracketStar("");
    assert "[*]" + "" == "[*]";
    assert IsPlain("items") && IsPlain(".id");
    assert "items" + "[*]" + ".id" == "items[*].id";
    assert "items" + "*" + ".id" == "items*.id";
    BracketStarMatchesOnlyStar("items", ".id", "items*.id");
    BracketStarMatchesOnlyStar("items", ".id", "items[0].id");
  }

  /* ---------------------------------------------------------------------
     What a bracket class contains.
     --------------------------------------------------------------------- */

  lemma ClassCons(item: ClassItem, rest: seq<ClassItem>, c: char)
    ensures InClass([item] + rest, c) <==> InItem(item, c) || InClass(rest, c)
  {
    var items := [item] + rest;
    assert items[0] == item;
    assert forall i :: 0 < i < |items| ==> items[i] == rest[i - 1];
    if InClass(rest, c) {
      var i :| 0 <= i < |rest| && InItem(rest[i], c);
      assert InItem(items[i + 1], c);
    }
  }

  /** A class body without hyphens holds exactly its own characters. */
  lemma {:induction false} NoHyphenClass(body: string, c: char)
    requires '-' !in body
    ensures InClass(ParseClassItems(body), c) <==> c in body
    decreases |body|
  {
    if |body| > 0 {
      assert body == [body[0]] + body[1..];
      NoHyphenClass(body[1..], c);
      ClassCons(Single(body[0]), ParseClassItems(body[1..]), c);
    }
  }

  /** `lo-hi` holds the characters from lo to hi inclusive, and nothing
      when the range is reversed. */
  lemma OneRange(lo: char, hi: char, c: char)
    ensures InClass(ParseClassItems([lo, '-', hi]), c) <==> lo <= c <= hi
  {
    assert ParseClassItems([lo, '-', hi]) == [Range(lo, hi)] + ParseClassItems([]);
    ClassCons(Range(lo, hi), [], c);
  }

  /** A hyphen in front of the body is an ordinary member, unless a second
      hyphen follows it and makes it the start of a range. */
  lemma LeadingHyphenIsLiteral(s: string, c: char)
    requires |s| == 0 || s[0] != '-'
    ensures InClass(ParseClassItems("-" + s), c) <==> c == '-' || InClass(ParseClassItems(s), c)
  {
    var body := "-" + s;
    assert body[1..] == s;
    assert ParseClassItems(body) == [Single('-')] + ParseClassItems(s);
    ClassCons(Single('-'), ParseClassItems(s), c);
  }

  /** A hyphen at the end of a body that has no other hyphen is an ordinary
      member. */
  lemma {:induction false} TrailingHyphenIsLiteral(s: string, c: char)
    requires '-' !in s
    ensures InClass(ParseClassItems(s + "-"), c) <==> c == '-' || c in s
    decreases |s|
  {
    var body := s + "-";
    if |s| == 0 {
      assert body == "-";
      assert ParseClassItems(body) == [Single('-')] + ParseClassItems([]);
      ClassCons(Single('-'), [], c);
    } else {
      assert body[0] == s[0] && body[1..] == s[1..] + "-";
      assert |s| >= 2 ==> body[1] == s[1];
      assert ParseClassItems(body) == [Single(s[0])] + ParseClassItems(s[1..] + "-");
      assert s == [s[0]] + s[1..];
      TrailingHyphenIsLiteral(s[1..], c);
      ClassCons(Single(s[0]), ParseClassItems(s[1..] + "-"), c);
    }
  }

  /** A closed class that is not negated, between plain text, translates to
      one class token whose members are read from its body. */
  lemma TokenizeClass(a: string, body: string, b: string)
    requires IsPlain(a) && |body| > 0 && body[0] != '!' && ']' !in body
    ensures Tokenize(a + "[" + body + "]" + b) == Tokenize(a) + ([CharClass(false, ParseClassItems(body))] + Tokenize(b))
  {
    var p := "[" + body + "]" + b;
    assert a + "[" + body + "]" + b == a + p;
    TokenizePlainPrefix(a, p);
    assert p[0] == '[' && p[1] == body[0] && p[1 + |body|] == ']';
    assert forall q :: 1 <= q < 1 + |body| ==> p[q] == body[q - 1];
    var j := CloseBracket(p, 1);
    assert j == 1 + |body|;
    assert p[1..j] == body;
    assert p[j + 1..] == b;
  }

  /** One token that takes exactly one character from `accept`, then plain
      text. */
  lemma OneCharThenPlain(t: Token, b: string, name: string)
    requires t.AnyChar? || t.CharClass?
    requires IsPlain(b)
    ensures MatchTokens([t] + Tokenize(b), name) <==>
      |name| == 1 + |b| && (t.CharClass? ==> InClass(t.items, name[0]) != t.negated) && name[1..] == b
  {
    var toks := [t] + Tokenize(b);
    assert toks[0] == t && toks[1..] == Tokenize(b);
    PlainTokens(b);
    if |name| > 0 {
      LiteralTokensMatch(Tokenize(b), b, name[1..]);
    }
  }

  /** Plain text, one token that takes a single character, plain text. */
  lemma PlainOneCharPlain(a: string, t: Token, b: string, name: string)
    requires t.AnyChar? || t.CharClass?
    requires IsPlain(a) && IsPlain(b)
    ensures MatchTokens(Tokenize(a) + ([t] + Tokenize(b)), name) <==>
      && |name| == |a| + 1 + |b|
      && a <= name
      && (t.CharClass? ==> InClass(t.items, name[|a|]) != t.negated)
      && name[|a| + 1..] == b
  {
    PlainPrefixMatch(a, [t] + Tokenize(b), name);
    if a <= name {
      var rest := name[|a|..];
      OneCharThenPlain(t, b, rest);
      if |name| == |a| + 1 + |b| {
        assert rest[0] == name[|a|];
        assert rest[1..] == name[|a| + 1..];
      }
    }
  }

  /** Between plain text, `[body]` stands for exactly one character of the
      class read from the body. */
  lemma ClassMatchesOneMember(a: string, body: string, b: string, name: string)
    requires IsPlain(a) && IsPlain(b) && |body| > 0 && body[0] != '!' && ']' !in body
    ensures Fnmatch(name, a + "[" + body + "]" + b) <==>
      && |name| == |a| + 1 + |b|
      && a <= name
      && InClass(ParseClassItems(body), name[|a|])
      && name[|a| + 1..] == b
  {
    TokenizeClass(a, body, b);
    PlainOneCharPlain(a, CharClass(false, ParseClassItems(body)), b, name);
  }

  /** `[!body]` between plain text translates to one negated class token. */
  lemma TokenizeNegatedClass(a: string, body: string, b: string)
    requires IsPlain(a) && |body| > 0 && ']' !in body
    ensures Tokenize(a + "[!" + body + "]" + b) == Tokenize(a) + ([CharClass(true, ParseClassItems(body))] + Tokenize(b))
  {
    var p := "[!" + body + "]" + b;
    assert a + "[!" + body + "]" + b == a + p;
    TokenizePlainPrefix(a, p);
    assert p[0] == '[' && p[1] == '!' && p[2] == body[0] && p[2 + |body|] == ']';
    assert forall q :: 2 <= q < 2 + |body| ==> p[q] == body[q - 2];
    var j := CloseBracket(p, 2);
    assert j == 2 + |body|;
    assert p[2..j] == body;
    assert p[j + 1..] == b;
  }

  /** Between plain text, `[!body]` stands for exactly one character that is
      not in the class read from the body. */
  lemma NegatedClassMatchesOneNonMember(a: string, body: string, b: string, name: string)
    requires IsPlain(a) && IsPlain(b) && |body| > 0 && ']' !in body
    ensures Fnmatch(name, a + "[!" + body + "]" + b) <==>
      && |name| == |a| + 1 + |b|
      && a <= name
      && !InClass(ParseClassItems(body), name[|a|])
      && name[|a| + 1..] == b
  {
    TokenizeNegatedClass(a, body, b);
    PlainOneCharPlain(a, CharClass(true, ParseClassItems(body)), b, name);
  }

  /** Between plain text, `?` stands for exactly one character, whatever it is. */
  lemma QuestionMatchesOneChar(a: string, b: string, name: string)
    requires IsPlain(a) && IsPlain(b)
    ensures Fnmatch(name, a + "?" + b) <==> |name| == |a| + 1 + |b| && a <= name && name[|a| + 1..] == b
  {
    var p := "?" + b;
    assert a + "?" + b == a + p;
    TokenizePlainPrefix(a, p);
    assert p[1..] == b;
    assert Tokenize(p) == [AnyChar] + Tokenize(b);
    PlainOneCharPlain(a, AnyChar, b, name);
  }

  /** For plain `a` and `b`, the pattern `a[0-9]b` takes one digit between
      them. */
  lemma DigitRangeBetween(a: string, b: string, name: string)
    requires IsPlain(a) && IsPlain(b)
    ensures Fnmatch(name, a + "[0-9]" + b) <==>
      && |name| == |a| + 1 + |b|
      && a <= name
      && '0' <= name[|a|] <= '9'
      && name[|a| + 1..] == b
  {
    assert a + "[0-9]" + b == a + "[" + "0-9" + "]" + b;
    ClassMatchesOneMember(a, "0-9", b, name);
    if |name| == |a| + 1 + |b| {
      OneRange('0', '9', name[|a|]);
    }
  }
}
