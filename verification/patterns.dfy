/** The three token patterns of gulp-tmpl-replace.js, as what the regular
    expression engine does at one position of the text:
      default        @(package\.)?([^@]+)@
      custom prefix  @(<prefix>.)?([^@]+)@   (the dot is any character but a line terminator)
      unprefixed     @([^@]+)@ */
module Patterns {
  import opened Wrappers

  const DefaultPrefix: string := "package"

  /** How the character after the prefix is matched: the default pattern is
      a regular-expression literal in which `\.` is a literal dot; the
      custom pattern is built from a template string, where `\.` collapses
      to `.`, which matches any character other than a line terminator. */
  datatype Dot = LiteralDot | AnyChar

  /** The pattern in use. */
  datatype Mode = Prefixed(prefix: string, dot: Dot) | Unprefixed

  /** A match found at some offset: where it ends (exclusive), the optional
      prefix group (`p1` of the prefixed patterns, None when it did not
      take part) and the key group. */
  datatype Match = Match(end: nat, group: Option<string>, key: string)

  predicate IsLineTerminator(c: char)
  {
    c == '\n' || c == '\r' || c == '\U{2028}' || c == '\U{2029}'
  }

  predicate DotAccepts(dot: Dot, c: char)
  {
    match dot
    case LiteralDot => c == '.'
    case AnyChar => !IsLineTerminator(c)
  }

  /** The first index at or after `j` that holds '@', or |text| if none. */
  function NextAt(text: string, j: nat): (k: nat)
    requires j <= |text|
    ensures j <= k <= |text|
    ensures k < |text| ==> text[k] == '@'
    ensures forall x :: j <= x < k ==> text[x] != '@'
    decreases |text| - j
  {
    if j == |text| || text[j] == '@' then j else NextAt(text, j + 1)
  }

  /** `([^@]+)@` from `j`: the index of the closing '@' when at least one
      other character comes before it. The only run of non-'@' characters
      that can be followed by '@' is the longest one, so no backtracking
      can find another. */
  function KeyEnd(text: string, j: nat): (r: Option<nat>)
    requires j <= |text|
    ensures r.Some? ==> j < r.value < |text| && text[r.value] == '@'
    ensures r.Some? ==> forall x :: j <= x < r.value ==> text[x] != '@'
    ensures r.None? ==> j == |text| || text[j] == '@' || forall x :: j < x < |text| ==> text[x] != '@'
  {
    var k := NextAt(text, j);
    if j < k < |text| then Some(k) else None
  }

  /** The match without the optional group: `@([^@]+)@` at `i`. */
  function Bare(text: string, i: nat): (r: Option<Match>)
    requires i < |text|
    ensures r.Some? ==> i + 3 <= r.value.end <= |text| && text[r.value.end - 1] == '@'
  {
    match KeyEnd(text, i + 1)
    case Some(k) => Some(Match(k + 1, None, text[i + 1..k]))
    case None => None
  }

  /** The match with the optional group taking part: `@(<prefix><dot>)([^@]+)@`
      at `i`. */
  function Grouped(text: string, i: nat, p: string, dot: Dot): (r: Option<Match>)
    requires i < |text|
    ensures r.Some? ==> i + 3 <= r.value.end <= |text| && text[r.value.end - 1] == '@'
  {
    var j := i + 1 + |p|;
    if j < |text| && text[i + 1..j] == p && DotAccepts(dot, text[j]) then
      match KeyEnd(text, j + 1)
      case Some(k) => Some(Match(k + 1, Some(text[i + 1..j + 1]), text[j + 1..k]))
      case None => None
    else
      None
  }

  /** The attempt of the global regular expression at offset `i`. The
      optional prefix group is greedy, so it is tried first and dropped
      only when the rest of the pattern then fails. */
  function MatchAt(text: string, i: nat, mode: Mode): (r: Option<Match>)
    requires i <= |text|
    ensures r.Some? ==> i + 3 <= r.value.end <= |text|
    ensures r.Some? ==> text[i] == '@' && text[r.value.end - 1] == '@'
  {
    if i == |text| || text[i] != '@' then None
    else
      match mode
      case Unprefixed => Bare(text, i)
      case Prefixed(p, dot) =>
        if Grouped(text, i, p, dot).Some? then Grouped(text, i, p, dot) else Bare(text, i)
  }

  /** Whatever the pattern, the key group is a non-empty run of characters
      other than '@' that ends right before the closing '@'. */
  lemma KeyShape(text: string, i: nat, mode: Mode)
    requires i <= |text| && MatchAt(text, i, mode).Some?
    ensures var m := MatchAt(text, i, mode).value;
      && i + 2 + |m.key| <= m.end
      && m.key == text[m.end - 1 - |m.key|..m.end - 1]
      && m.key != [] && '@' !in m.key
  {
  }

  /** Skipping characters that are not '@' does not move the next '@'. */
  lemma {:induction false} NextAtSkips(text: string, j: nat, j': nat)
    requires j <= j' <= |text|
    requires forall x :: j <= x < j' ==> text[x] != '@'
    ensures NextAt(text, j) == NextAt(text, j')
    decreases j' - j
  {
    if j < j' {
      NextAtSkips(text, j + 1, j');
    }
  }

  /** For the default and the unprefixed patterns a token is an '@', one or
      more other characters, and the next '@': `@@` is no token, and the
      prefix group only decides whether `p1` is present. */
  lemma TokenShape(text: string, i: nat, mode: Mode)
    requires i <= |text|
    requires mode.Prefixed? ==> mode.dot == LiteralDot && '@' !in mode.prefix
    ensures MatchAt(text, i, mode).Some? <==>
      i + 1 < |text| && text[i] == '@' && text[i + 1] != '@' && exists x :: i + 1 < x < |text| && text[x] == '@'
    ensures MatchAt(text, i, mode).Some? ==>
      MatchAt(text, i, mode).value.end == NextAt(text, i + 1) + 1
  {
    if i < |text| && text[i] == '@' && mode.Prefixed? {
      var p := mode.prefix;
      var j := i + 1 + |p|;
      if j < |text| && text[i + 1..j] == p && DotAccepts(mode.dot, text[j]) {
        forall x | i + 1 <= x < j + 1 ensures text[x] != '@' {
          if x < j { assert text[x] == p[x - i - 1]; }
        }
        NextAtSkips(text, i + 1, j + 1);
      }
    }
  }

  /** The first '@' from `j` on is at `k`. */
  lemma NextAtIs(text: string, j: nat, k: nat)
    requires j <= k < |text| && text[k] == '@'
    requires forall x :: j <= x < k ==> text[x] != '@'
    ensures NextAt(text, j) == k
  {
    NextAtSkips(text, j, k);
  }

  /** With a literal dot, the group takes part at an '@' whose next '@' is
      at `e - 1` exactly when the text between them is the prefix, a dot and
      at least one more character. */
  lemma GroupedLiteral(text: string, i: nat, p: string, e: nat)
    requires i + 3 <= e <= |text| && text[i] == '@' && text[e - 1] == '@'
    requires forall x :: i < x < e - 1 ==> text[x] != '@'
    requires '@' !in p
    ensures Grouped(text, i, p, LiteralDot) ==
      if i + |p| + 3 < e && text[i + 1..i + |p| + 2] == p + "."
      then Some(Match(e, Some(p + "."), text[i + |p| + 2..e - 1]))
      else None
  {
    var j := i + 1 + |p|;
    forall x | i + 1 <= x < j && j <= |text| && text[i + 1..j] == p ensures text[x] != '@' {
      assert text[x] == p[x - i - 1];
    }
    if j < e - 1 {
      NextAtIs(text, j + 1, e - 1);
      assert text[i + 1..j + 1] == text[i + 1..j] + [text[j]];
      assert p + "." == p + ['.'];
      if text[i + 1..j + 1] == p + "." {
        assert text[i + 1..j] == text[i + 1..j + 1][..|p|];
      }
    }
  }

  /** The match of the default-style pattern at an '@' whose next '@' is at
      `e - 1`, with at least one character between: the group takes part
      exactly when the text between the '@'s is the prefix, a dot and at
      least one more character, and the key is the rest after the dot;
      otherwise the group is absent and the key is the whole text between. */
  lemma DefaultMatch(text: string, i: nat, p: string, e: nat)
    requires i + 3 <= e <= |text| && text[i] == '@' && text[e - 1] == '@'
    requires forall x :: i < x < e - 1 ==> text[x] != '@'
    requires '@' !in p
    ensures MatchAt(text, i, Prefixed(p, LiteralDot)) ==
      if i + |p| + 3 < e && text[i + 1..i + |p| + 2] == p + "."
      then Some(Match(e, Some(p + "."), text[i + |p| + 2..e - 1]))
      else Some(Match(e, None, text[i + 1..e - 1]))
  {
    GroupedLiteral(text, i, p, e);
    NextAtIs(text, i + 1, e - 1);
  }

  /** The prefix stands right after the '@' at `i`, with a character after it. */
  predicate PrefixAt(text: string, i: nat, p: string)
  {
    i + 1 + |p| < |text| && text[i + 1..i + 1 + |p|] == p
  }

  /** Where a custom-prefix token ends. It ends at the next '@', as a
      default token does, unless the character after the prefix is that
      '@' and a non-empty run without '@' closed by a further '@' follows
      it: then the wildcard dot takes the '@' and the token ends at the
      further one. */
  lemma CustomMatch(text: string, i: nat, p: string)
    requires i < |text| && text[i] == '@' && '@' !in p
    ensures var j := i + 1 + |p|;
      var m := MatchAt(text, i, Prefixed(p, AnyChar));
      var swallows := PrefixAt(text, i, p) && text[j] == '@' && KeyEnd(text, j + 1).Some?;
      && (swallows ==>
            m == Some(Match(KeyEnd(text, j + 1).value + 1, Some(p + "@"), text[j + 1..KeyEnd(text, j + 1).value])))
      && (!swallows ==>
            && (m.Some? <==> KeyEnd(text, i + 1).Some?)
            && (m.Some? ==> m.value.end == KeyEnd(text, i + 1).value + 1))
  {
    var j := i + 1 + |p|;
    if PrefixAt(text, i, p) {
      forall x | i + 1 <= x < j ensures text[x] != '@' {
        assert text[x] == text[i + 1..j][x - i - 1];
      }
      if text[j] == '@' {
        SwallowingDot(text, i, p);
      } else {
        OrdinaryDot(text, i, p);
      }
    }
  }

  /** The character after the prefix is '@': the group takes it exactly
      when a run closed by a further '@' follows; otherwise the match is
      the one without the group. */
  lemma SwallowingDot(text: string, i: nat, p: string)
    requires i < |text| && text[i] == '@' && PrefixAt(text, i, p) && text[i + 1 + |p|] == '@'
    ensures var j := i + 1 + |p|;
      MatchAt(text, i, Prefixed(p, AnyChar)) ==
        if KeyEnd(text, j + 1).Some?
        then Some(Match(KeyEnd(text, j + 1).value + 1, Some(p + "@"), text[j + 1..KeyEnd(text, j + 1).value]))
        else Bare(text, i)
  {
    var j := i + 1 + |p|;
    assert text[i + 1..j + 1] == p + "@" by {
      assert text[i + 1..j + 1] == text[i + 1..j] + [text[j]];
    }
  }

  /** The character after the prefix is not '@': with or without the group
      the token ends at the next '@'. */
  lemma OrdinaryDot(text: string, i: nat, p: string)
    requires i < |text| && text[i] == '@' && PrefixAt(text, i, p) && text[i + 1 + |p|] != '@'
    requires forall x :: i + 1 <= x < i + 1 + |p| ==> text[x] != '@'
    ensures var m := MatchAt(text, i, Prefixed(p, AnyChar));
      && (m.Some? <==> KeyEnd(text, i + 1).Some?)
      && (m.Some? ==> m.value.end == KeyEnd(text, i + 1).value + 1)
  {
    NextAtSkips(text, i + 1, i + 2 + |p|);
  }

  /** When the prefix group of a custom-prefix token takes part: exactly
      when the prefix, one character other than a line terminator and a
      non-empty run without '@' closed by '@' follow the opening '@'. The
      group is then the prefix with that character, and the key the run. */
  lemma CustomGroup(text: string, i: nat, p: string)
    requires i < |text| && text[i] == '@'
    ensures var j := i + 1 + |p|;
      var m := MatchAt(text, i, Prefixed(p, AnyChar));
      && (m.Some? && m.value.group.Some? <==>
            PrefixAt(text, i, p) && !IsLineTerminator(text[j]) && KeyEnd(text, j + 1).Some?)
      && (m.Some? && m.value.group.Some? ==>
            m.value.group == Some(text[i + 1..j + 1]) && m.value.key == text[j + 1..m.value.end - 1])
      && (m.Some? && m.value.group.None? ==> m.value.key == text[i + 1..m.value.end - 1])
  {
  }

  /** A custom-prefix token whose group takes part and whose key runs up to
      the '@' at `e - 1`. */
  lemma CustomKeyMatch(text: string, i: nat, p: string, e: nat)
    requires i + |p| + 4 <= e <= |text| && text[i] == '@' && text[e - 1] == '@'
    requires forall x :: i + |p| + 2 <= x < e - 1 ==> text[x] != '@'
    requires PrefixAt(text, i, p) && !IsLineTerminator(text[i + 1 + |p|])
    ensures MatchAt(text, i, Prefixed(p, AnyChar))
         == Some(Match(e, Some(text[i + 1..i + 2 + |p|]), text[i + 2 + |p|..e - 1]))
  {
    NextAtIs(text, i + 2 + |p|, e - 1);
  }

  /** With a custom prefix the dot is a wildcard: `@fooXbar@` has group
      `fooX` and key `bar`. */
  lemma CustomDotIsWildcard()
    ensures MatchAt("@fooXbar@", 0, Prefixed("foo", AnyChar)) == Some(Match(9, Some("fooX"), "bar"))
  {
    var t := "@fooXbar@";
    assert t[1..4] == "foo" && DotAccepts(AnyChar, t[4]);
    assert KeyEnd(t, 5) == Some(8);
    assert t[1..5] == "fooX" && t[5..8] == "bar";
  }

  /** The wildcard dot even matches '@', so a custom-prefix token can run
      past the '@' that would otherwise have closed it. */
  lemma CustomDotSwallowsAt()
    ensures MatchAt("@foo@bar@", 0, Prefixed("foo", AnyChar)) == Some(Match(9, Some("foo@"), "bar"))
    ensures MatchAt("@foo@bar@", 0, Prefixed("foo", LiteralDot)) == Some(Match(5, None, "foo"))
  {
    var t := "@foo@bar@";
    assert t[1..4] == "foo" && DotAccepts(AnyChar, t[4]) && !DotAccepts(LiteralDot, t[4]);
    assert KeyEnd(t, 5) == Some(8);
    assert KeyEnd(t, 1) == Some(4);
    assert t[1..5] == "foo@" && t[5..8] == "bar" && t[1..4] == "foo";
  }
}
