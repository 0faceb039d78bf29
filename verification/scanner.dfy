/** The global replace `replace(pattern, handler)` of gulp-tmpl-replace.js:
    the regular expression is tried at each position from the left; where it
    matches, the callback's result takes the token's place and the scan
    resumes after the token; elsewhere the character is copied. */
module Scanner {
  import opened Wrappers
  import opened Diagnostics
  import opened Patterns
  import opened Handlers

  /** One substitution pass: the pattern, the merged table, the document
      text and its relative path. */
  datatype Job = Job(mode: Mode, table: map<string, string>, text: string, path: string)

  /** The text as the scan divides it: a character where no match starts,
      or a token with the match found at its offset. */
  datatype Piece = Plain(at: nat) | Token(at: nat, m: Match)

  /** The result of one pass: the transformed text with the reports logged
      on the way, or, when `getLine` threw, the reports logged before it
      (none, by AbortedIsSilent) and the headline of the report it was
      writing. */
  datatype Outcome = Done(text: string, reports: seq<Report>) | Aborted(reports: seq<Report>, headline: Issue)

  /** The piece lies inside the text. */
  predicate Fits(text: string, q: Piece)
  {
    match q
    case Plain(p) => p < |text|
    case Token(p, m) => p < m.end <= |text|
  }

  /** The piece is what the pattern gives at its offset: a match there, or
      a character where no match starts. */
  predicate FollowsPattern(text: string, mode: Mode, q: Piece)
  {
    match q
    case Plain(p) => p < |text| && MatchAt(text, p, mode).None?
    case Token(p, m) => p < |text| && MatchAt(text, p, mode) == Some(m)
  }

  function End(q: Piece): nat
  {
    match q
    case Plain(p) => p + 1
    case Token(_, m) => m.end
  }

  /** The pieces follow each other without gap or overlap from `from` to `to`. */
  predicate Tiles(ps: seq<Piece>, from: nat, to: nat)
    decreases |ps|
  {
    if ps == [] then from == to else ps[0].at == from && Tiles(ps[1..], End(ps[0]), to)
  }

  /** The scan of `text[i..]`: at each position, a token where the pattern
      matches, otherwise one plain character. */
  function Pieces(text: string, mode: Mode, i: nat): (ps: seq<Piece>)
    requires i <= |text|
    ensures forall q :: q in ps ==> Fits(text, q)
    decreases |text| - i
  {
    if i == |text| then []
    else
      match MatchAt(text, i, mode)
      case Some(m) => [Token(i, m)] + Pieces(text, mode, m.end)
      case None => [Plain(i)] + Pieces(text, mode, i + 1)
  }

  /** The scan is left to right and without overlap: its pieces follow
      each other without gap from `i` to the end of the text; a token stands
      wherever the pattern matches at the current position, and a plain
      character only where it does not. */
  lemma {:induction false} PiecesFollowPattern(text: string, mode: Mode, i: nat)
    requires i <= |text|
    ensures Tiles(Pieces(text, mode, i), i, |text|)
    ensures forall q :: q in Pieces(text, mode, i) ==> FollowsPattern(text, mode, q)
    decreases |text| - i
  {
    if i < |text| {
      var q := Pieces(text, mode, i)[0];
      var rest := Pieces(text, mode, End(q));
      assert Pieces(text, mode, i) == [q] + rest;
      PiecesFollowPattern(text, mode, End(q));
      assert ([q] + rest)[1..] == rest;
    }
  }

  /** Processing one piece: a plain character is copied, a token is replaced
      by what its callback returns ("" after a report); once the callback
      has thrown, nothing more happens. A piece outside the text (the scan
      never makes one, see `Pieces`) changes nothing, which keeps the fold
      free of preconditions. */
  function Step(job: Job, acc: Outcome, q: Piece): Outcome
  {
    if !Fits(job.text, q) then acc else
    match acc
    case Aborted(_, _) => acc
    case Done(out, reports) =>
      match q
      case Plain(p) => Done(out + [job.text[p]], reports)
      case Token(p, m) =>
        match HandleMatch(job.mode, job.table, job.text, job.path, p, m)
        case Replaced(v) => Done(out + v, reports)
        case Reported(rep) => Done(out, reports + [rep])
        case Threw(h) => Aborted(reports, h)
  }

  /** The pieces processed from left to right, starting from `acc`. */
  function RenderFrom(job: Job, acc: Outcome, ps: seq<Piece>): Outcome
    decreases |ps|
  {
    if ps == [] then acc else RenderFrom(job, Step(job, acc, ps[0]), ps[1..])
  }

  /** What the global replace produces for the job. */
  function Substitute(job: Job): Outcome
  {
    RenderFrom(job, Done("", []), Pieces(job.text, job.mode, 0))
  }

  /** After a callback has thrown, the rest of the text changes nothing. */
  lemma {:induction false} AbortedSticks(job: Job, acc: Outcome, ps: seq<Piece>)
    requires acc.Aborted?
    requires forall q :: q in ps ==> Fits(job.text, q)
    ensures RenderFrom(job, acc, ps) == acc
    decreases |ps|
  {
    if ps != [] {
      AbortedSticks(job, acc, ps[1..]);
    }
  }

  /** The global replace as a scanning loop: try the pattern at the current
      position; on a match, call the callback and resume after the token;
      otherwise copy one character. A throwing callback ends the pass. */
  method Replace(job: Job) returns (out: Outcome)
    ensures out == Substitute(job)
  {
    var text, mode := job.text, job.mode;
    var output: string := "";
    var reports: seq<Report> := [];
    var i := 0;
    while i < |text|
      invariant 0 <= i <= |text|
      invariant RenderFrom(job, Done(output, reports), Pieces(text, mode, i)) == Substitute(job)
    {
      var found := MatchAt(text, i, mode);
      var q := if found.Some? then Token(i, found.value) else Plain(i);
      var rest := Pieces(text, mode, End(q));
      assert Pieces(text, mode, i) == [q] + rest;
      assert ([q] + rest)[1..] == rest;
      if found.Some? {
        var h := HandleMatch(mode, job.table, text, job.path, i, found.value);
        if h.Threw? {
          out := Aborted(reports, h.headline);
          AbortedSticks(job, out, rest);
          return;
        } else if h.Replaced? {
          output := output + h.value;
        } else {
          reports := reports + [h.report];
        }
      } else {
        output := output + [text[i]];
      }
      i := End(q);
    }
    out := Done(output, reports);
  }

  /** A character other than '@' starts no token: the scan copies it. */
  lemma CopyOne(job: Job, output: string, reports: seq<Report>, i: nat)
    requires i < |job.text| && job.text[i] != '@'
    ensures RenderFrom(job, Done(output, reports), Pieces(job.text, job.mode, i))
         == RenderFrom(job, Done(output + [job.text[i]], reports), Pieces(job.text, job.mode, i + 1))
  {
    var rest := Pieces(job.text, job.mode, i + 1);
    assert MatchAt(job.text, i, job.mode).None?;
    assert Pieces(job.text, job.mode, i) == [Plain(i)] + rest;
    assert ([Plain(i)] + rest)[1..] == rest;
  }

  /** Where the pattern matches, the scan takes the token and resumes after it. */
  lemma UnfoldToken(job: Job, acc: Outcome, i: nat, m: Match)
    requires i < |job.text| && MatchAt(job.text, i, job.mode) == Some(m)
    ensures RenderFrom(job, acc, Pieces(job.text, job.mode, i))
         == RenderFrom(job, Step(job, acc, Token(i, m)), Pieces(job.text, job.mode, m.end))
  {
    var rest := Pieces(job.text, job.mode, m.end);
    assert Pieces(job.text, job.mode, i) == [Token(i, m)] + rest;
    assert ([Token(i, m)] + rest)[1..] == rest;
  }

  /** What one token does to a pass that has not thrown. */
  lemma StepToken(job: Job, out: string, reports: seq<Report>, i: nat, m: Match)
    requires i < m.end <= |job.text|
    ensures Step(job, Done(out, reports), Token(i, m)) ==
      match HandleMatch(job.mode, job.table, job.text, job.path, i, m)
      case Replaced(v) => Done(out + v, reports)
      case Reported(rep) => Done(out, reports + [rep])
      case Threw(hd) => Aborted(reports, hd)
  {
  }

  /** A run of characters without '@' is copied unchanged. */
  lemma {:induction false} PlainRun(job: Job, output: string, reports: seq<Report>, i: nat, j: nat)
    requires i <= j <= |job.text|
    requires forall x :: i <= x < j ==> job.text[x] != '@'
    ensures RenderFrom(job, Done(output, reports), Pieces(job.text, job.mode, i))
         == RenderFrom(job, Done(output + job.text[i..j], reports), Pieces(job.text, job.mode, j))
    decreases j - i
  {
    if i < j {
      CopyOne(job, output, reports, i);
      PlainRun(job, output + [job.text[i]], reports, i + 1, j);
      SliceStep(output, job.text, i, j);
    } else {
      assert output + job.text[i..j] == output;
    }
  }

  lemma SliceStep(output: string, text: string, i: nat, j: nat)
    requires i < j <= |text|
    ensures (output + [text[i]]) + text[i + 1..j] == output + text[i..j]
  {
    assert text[i..j] == [text[i]] + text[i + 1..j];
  }

  /** A text without '@' holds no token and comes out as it went in. */
  lemma NoTokenUnchanged(job: Job)
    requires '@' !in job.text
    ensures Substitute(job) == Done(job.text, [])
  {
    PlainRun(job, "", [], 0, |job.text|);
    assert "" + job.text[0..|job.text|] == job.text;
  }

  /** The tail of a text after its last token is copied as it is. */
  lemma Tail(job: Job, acc: Outcome, e: nat)
    requires e <= |job.text|
    requires forall x :: e <= x < |job.text| ==> job.text[x] != '@'
    ensures RenderFrom(job, acc, Pieces(job.text, job.mode, e)) ==
      match acc
      case Done(out, reports) => Done(out + job.text[e..], reports)
      case Aborted(_, _) => acc
  {
    if acc.Aborted? {
      AbortedSticks(job, acc, Pieces(job.text, job.mode, e));
    } else {
      PlainRun(job, acc.text, acc.reports, e, |job.text|);
      assert job.text[e..|job.text|] == job.text[e..];
    }
  }

  /** Where a text is `a`, '@', `body`, '@', `b` with no other '@'. */
  lemma Parts(text: string, a: string, body: string, b: string)
    requires text == a + "@" + body + "@" + b
    requires '@' !in a && '@' !in body && '@' !in b
    ensures text[..|a|] == a && text[|a|..|a| + |body| + 2] == "@" + body + "@"
    ensures text[|a| + 1..|a| + |body| + 1] == body && text[|a| + |body| + 2..] == b
    ensures text[|a|] == '@' && text[|a| + |body| + 1] == '@'
    ensures forall x :: 0 <= x < |text| && x != |a| && x != |a| + |body| + 1 ==> text[x] != '@'
  {
    var t, e := |a|, |a| + |body| + 2;
    assert text[..t] == a;
    assert text[t + 1..e - 1] == body;
    assert text[e..] == b;
    forall x | 0 <= x < |text| && x != t && x != e - 1 ensures text[x] != '@' {
      if x < t { assert text[x] == a[x]; }
      else if x < e - 1 { assert text[x] == body[x - t - 1]; }
      else { assert text[x] == b[x - e]; }
    }
  }

  /** In a text whose only '@'s are at `t` and `e - 1`, the pattern finds
      the token from `t` to `e`, whatever the mode: the wildcard dot of a
      custom prefix has no further '@' to reach. */
  lemma TokenFound(text: string, t: nat, e: nat, mode: Mode)
    requires t + 3 <= e <= |text| && text[t] == '@' && text[e - 1] == '@'
    requires forall x :: 0 <= x < |text| && x != t && x != e - 1 ==> text[x] != '@'
    requires mode.Prefixed? ==> '@' !in mode.prefix
    ensures MatchAt(text, t, mode).Some? && MatchAt(text, t, mode).value.end == e
  {
    NextAtIs(text, t + 1, e - 1);
    if mode.Prefixed? {
      if mode.dot == LiteralDot {
        DefaultMatch(text, t, mode.prefix, e);
      } else {
        NextAtSkips(text, e, |text|);
        CustomMatch(text, t, mode.prefix);
      }
    }
  }

  /** Up to the first token the text is copied; the pass goes on from
      the token. */
  lemma FirstToken(job: Job, t: nat, m: Match)
    requires t < |job.text| && MatchAt(job.text, t, job.mode) == Some(m)
    requires forall x :: 0 <= x < t ==> job.text[x] != '@'
    ensures Substitute(job) == RenderFrom(job, Step(job, Done(job.text[..t], []), Token(t, m)), Pieces(job.text, job.mode, m.end))
  {
    PlainRun(job, "", [], 0, t);
    assert "" + job.text[0..t] == job.text[..t];
    UnfoldToken(job, Done(job.text[..t], []), t, m);
  }

  /** From a token after which no '@' follows, the pass ends with what the
      callback made of the token and the rest of the text copied. */
  lemma AfterLastToken(job: Job, out: string, t: nat, m: Match)
    requires t < m.end <= |job.text|
    requires forall x :: m.end <= x < |job.text| ==> job.text[x] != '@'
    ensures RenderFrom(job, Step(job, Done(out, []), Token(t, m)), Pieces(job.text, job.mode, m.end)) ==
      match HandleMatch(job.mode, job.table, job.text, job.path, t, m)
      case Replaced(v) => Done(out + v + job.text[m.end..], [])
      case Reported(rep) => Done(out + job.text[m.end..], [rep])
      case Threw(hd) => Aborted([], hd)
  {
    StepToken(job, out, [], t, m);
    Tail(job, Step(job, Done(out, []), Token(t, m)), m.end);
  }

  /** A text whose only token runs from `t` to `e`: the text around it is
      copied, and the token gives way to the callback's value, to nothing
      (with one report), or the pass ends with the headline when the
      callback throws. */
  lemma OneToken(job: Job, t: nat, e: nat)
    requires t + 3 <= e <= |job.text| && job.text[t] == '@' && job.text[e - 1] == '@'
    requires forall x :: 0 <= x < |job.text| && x != t && x != e - 1 ==> job.text[x] != '@'
    requires job.mode.Prefixed? ==> '@' !in job.mode.prefix
    ensures MatchAt(job.text, t, job.mode).Some? && MatchAt(job.text, t, job.mode).value.end == e
    ensures var h := HandleMatch(job.mode, job.table, job.text, job.path, t, MatchAt(job.text, t, job.mode).value);
      Substitute(job) ==
        match h
        case Replaced(v) => Done(job.text[..t] + v + job.text[e..], [])
        case Reported(rep) => Done(job.text[..t] + job.text[e..], [rep])
        case Threw(hd) => Aborted([], hd)
  {
    TokenFound(job.text, t, e, job.mode);
    var m := MatchAt(job.text, t, job.mode).value;
    FirstToken(job, t, m);
    AfterLastToken(job, job.text[..t], t, m);
  }

  /** The default pattern on a text whose only token runs from `t` to `e`
      and reads `@package.<key>@` with the key in the table. */
  lemma PackageAt(job: Job, t: nat, e: nat)
    requires job.mode == Prefixed(DefaultPrefix, LiteralDot)
    requires t + 11 <= e <= |job.text| && job.text[t] == '@' && job.text[e - 1] == '@'
    requires forall x :: 0 <= x < |job.text| && x != t && x != e - 1 ==> job.text[x] != '@'
    requires job.text[t + 1..t + 9] == "package." && job.text[t + 9..e - 1] in job.table
    ensures Substitute(job) == Done(job.text[..t] + job.table[job.text[t + 9..e - 1]] + job.text[e..], [])
  {
    assert DefaultPrefix + "." == "package.";
    OneToken(job, t, e);
    DefaultMatch(job.text, t, DefaultPrefix, e);
  }

  /** The default pattern on a text whose only token runs from `t` to `e`
      and does not read `@package.<something>@`. */
  lemma MissingAt(job: Job, t: nat, e: nat)
    requires job.mode == Prefixed(DefaultPrefix, LiteralDot)
    requires t + 3 <= e <= |job.text| && job.text[t] == '@' && job.text[e - 1] == '@'
    requires forall x :: 0 <= x < |job.text| && x != t && x != e - 1 ==> job.text[x] != '@'
    requires !(t + 11 <= e && job.text[t + 1..t + 9] == "package.")
    ensures var out := Substitute(job);
      var issue := Issue(job.text[t..e], MissingPrefix(DefaultPrefix));
      && ('\n' in job.text[..t] ==>
            out.Done? && out.text == job.text[..t] + job.text[e..] && |out.reports| == 1 && out.reports[0].issue == issue)
      && ('\n' !in job.text[..t] ==> out == Aborted([], issue))
  {
    assert DefaultPrefix + "." == "package.";
    OneToken(job, t, e);
    DefaultMatch(job.text, t, DefaultPrefix, e);
    var m := MatchAt(job.text, t, job.mode).value;
    assert m.group.None? && m.end == e;
    var h := HandleMatch(job.mode, job.table, job.text, job.path, t, m);
    assert h == HandleWithPrefix(DefaultPrefix, job.table, job.text[t..e], None, m.key, t, job.text, job.path);
  }

  /** Default pattern: `@package.<key>@` with the key in the table is
      replaced by its value, and nothing is reported. */
  lemma PackageTokenResolved(a: string, key: string, b: string, table: map<string, string>, path: string)
    requires '@' !in a && '@' !in key && '@' !in b && key != []
    requires key in table
    ensures Substitute(Job(Prefixed(DefaultPrefix, LiteralDot), table, a + "@package." + key + "@" + b, path))
         == Done(a + table[key] + b, [])
  {
    var text := a + "@package." + key + "@" + b;
    var body := "package." + key;
    var t, e := |a|, |a| + |body| + 2;
    assert text[..t] == a && text[e..] == b && text[t] == '@' && text[e - 1] == '@'
      && text[t + 1..t + 9] == "package." && text[t + 9..e - 1] == key
      && (forall x :: 0 <= x < |text| && x != t && x != e - 1 ==> text[x] != '@') by {
      assert text == a + "@" + body + "@" + b;
      assert '@' !in body by {
        forall x | 0 <= x < |body| ensures body[x] != '@' {
          if x >= 8 { assert body[x] == key[x - 8]; }
        }
      }
      Parts(text, a, body, b);
      assert text[t + 1..t + 9] == body[..8];
      assert text[t + 9..e - 1] == body[8..];
    }
    PackageAt(Job(Prefixed(DefaultPrefix, LiteralDot), table, text, path), t, e);
  }

  /** Default pattern: a token whose text does not start with `package.`
      is replaced by nothing with one report "replacement must start with
      'package.'"; on the first line `getLine` throws instead. */
  lemma MissingPrefixReported(a: string, body: string, b: string, table: map<string, string>, path: string)
    requires '@' !in a && '@' !in body && '@' !in b && body != []
    requires !(|body| > 8 && body[..8] == "package.")
    ensures var out := Substitute(Job(Prefixed(DefaultPrefix, LiteralDot), table, a + "@" + body + "@" + b, path));
      && ('\n' in a ==> out.Done? && out.text == a + b && |out.reports| == 1
                        && out.reports[0].issue == Issue("@" + body + "@", MissingPrefix(DefaultPrefix)))
      && ('\n' !in a ==> out == Aborted([], Issue("@" + body + "@", MissingPrefix(DefaultPrefix))))
  {
    var text := a + "@" + body + "@" + b;
    var t, e := |a|, |a| + |body| + 2;
    assert text[..t] == a && text[e..] == b && text[t..e] == "@" + body + "@"
      && text[t] == '@' && text[e - 1] == '@'
      && !(t + 11 <= e && text[t + 1..t + 9] == "package.")
      && (forall x :: 0 <= x < |text| && x != t && x != e - 1 ==> text[x] != '@') by {
      Parts(text, a, body, b);
      if t + 11 <= e {
        assert text[t + 1..t + 9] == body[..8];
      }
    }
    MissingAt(Job(Prefixed(DefaultPrefix, LiteralDot), table, text, path), t, e);
  }

  /** A custom prefix on a text whose only token runs from `t` to `e` and
      reads `@<prefix><c><key>@`, where `c` is any character other than a
      line terminator and the key is in the table. */
  lemma CustomAt(job: Job, t: nat, e: nat)
    requires job.mode.Prefixed? && job.mode.dot == AnyChar && '@' !in job.mode.prefix
    requires t + |job.mode.prefix| + 4 <= e <= |job.text| && job.text[t] == '@' && job.text[e - 1] == '@'
    requires forall x :: 0 <= x < |job.text| && x != t && x != e - 1 ==> job.text[x] != '@'
    requires job.text[t + 1..t + 1 + |job.mode.prefix|] == job.mode.prefix
    requires !IsLineTerminator(job.text[t + 1 + |job.mode.prefix|])
    requires job.text[t + 2 + |job.mode.prefix|..e - 1] in job.table
    ensures Substitute(job)
         == Done(job.text[..t] + job.table[job.text[t + 2 + |job.mode.prefix|..e - 1]] + job.text[e..], [])
  {
    var j := t + 1 + |job.mode.prefix|;
    CustomKeyMatch(job.text, t, job.mode.prefix, e);
    OneToken(job, t, e);
  }

  /** Custom prefix: `@<prefix><c><key>@` with the key in the table is
      replaced by its value whatever the character `c` after the prefix,
      as long as it is neither '@' nor a line terminator. */
  lemma CustomTokenResolved(
    a: string, prefix: string, c: char, key: string, b: string, table: map<string, string>, path: string)
    requires '@' !in a && '@' !in prefix && '@' !in key && '@' !in b && key != []
    requires c != '@' && !IsLineTerminator(c) && key in table
    ensures Substitute(Job(Prefixed(prefix, AnyChar), table, a + "@" + prefix + [c] + key + "@" + b, path))
         == Done(a + table[key] + b, [])
  {
    var text := a + "@" + prefix + [c] + key + "@" + b;
    var t, e := |a|, |a| + |prefix| + |key| + 3;
    CustomParts(text, a, prefix, c, key, b);
    CustomAt(Job(Prefixed(prefix, AnyChar), table, text, path), t, e);
  }

  /** Where a text is `a`, '@', the prefix, `c`, `key`, '@', `b` with no
      other '@'. */
  lemma CustomParts(text: string, a: string, prefix: string, c: char, key: string, b: string)
    requires text == a + "@" + prefix + [c] + key + "@" + b
    requires '@' !in a && '@' !in prefix && '@' !in key && '@' !in b && c != '@'
    ensures var t, j, e := |a|, |a| + 1 + |prefix|, |a| + |prefix| + |key| + 3;
      && text[..t] == a && text[e..] == b && text[t] == '@' && text[e - 1] == '@'
      && text[t + 1..j] == prefix && text[j] == c && text[j + 1..e - 1] == key
      && (forall x :: 0 <= x < |text| && x != t && x != e - 1 ==> text[x] != '@')
  {
    var body := prefix + [c] + key;
    var t, j, e := |a|, |a| + 1 + |prefix|, |a| + |body| + 2;
    assert text == a + "@" + body + "@" + b;
    assert '@' !in body by {
      forall x | 0 <= x < |body| ensures body[x] != '@' {
        if x < |prefix| { assert body[x] == prefix[x]; }
        else if x > |prefix| { assert body[x] == key[x - |prefix| - 1]; }
      }
    }
    Parts(text, a, body, b);
    assert body[..|prefix|] == prefix && body[|prefix|] == c && body[|prefix| + 1..] == key;
    var mid := text[t + 1..e - 1];
    assert text[t + 1..j] == mid[..|prefix|];
    assert text[j] == mid[|prefix|];
    assert text[j + 1..e - 1] == mid[|prefix| + 1..];
  }

  /** Unprefixed pattern: the whole text between the '@'s is the key; a key
      in the table is replaced by its value, any other by nothing with one
      report "has no replacement!", or the pass throws on the first line. */
  lemma UnprefixedToken(a: string, key: string, b: string, table: map<string, string>, path: string)
    requires '@' !in a && '@' !in key && '@' !in b && key != []
    ensures var out := Substitute(Job(Unprefixed, table, a + "@" + key + "@" + b, path));
      && (key in table ==> out == Done(a + table[key] + b, []))
      && (key !in table && '\n' in a ==> out.Done? && out.text == a + b && |out.reports| == 1
                                         && out.reports[0].issue == Issue("@" + key + "@", NoReplacement))
      && (key !in table && '\n' !in a ==> out == Aborted([], Issue("@" + key + "@", NoReplacement)))
  {
    var job := Job(Unprefixed, table, a + "@" + key + "@" + b, path);
    var t, e := |a|, |a| + |key| + 2;
    Parts(job.text, a, key, b);
    OneToken(job, t, e);
    assert MatchAt(job.text, t, job.mode) == Some(Match(e, None, key)) by {
      NextAtIs(job.text, t + 1, e - 1);
    }
  }

  /** What a piece puts into the output of a pass that does not throw: a
      plain character itself, a token the callback's value, or nothing
      after a report. */
  function Contribution(job: Job, q: Piece): string
    requires Fits(job.text, q)
  {
    match q
    case Plain(p) => [job.text[p]]
    case Token(p, m) =>
      match HandleMatch(job.mode, job.table, job.text, job.path, p, m)
      case Replaced(v) => v
      case _ => ""
  }

  function Contributions(job: Job, ps: seq<Piece>): string
    requires forall q :: q in ps ==> Fits(job.text, q)
    decreases |ps|
  {
    if ps == [] then "" else Contribution(job, ps[0]) + Contributions(job, ps[1..])
  }

  /** A token inside the text whose callback throws. */
  predicate Throws(job: Job, q: Piece)
  {
    Fits(job.text, q) && q.Token? && HandleMatch(job.mode, job.table, job.text, job.path, q.at, q.m).Threw?
  }

  /** The report a piece logs when its callback returns: one for a token
      without a replacement, none otherwise. */
  function PieceReports(job: Job, q: Piece): seq<Report>
    requires Fits(job.text, q)
  {
    match q
    case Plain(_) => []
    case Token(p, m) =>
      match HandleMatch(job.mode, job.table, job.text, job.path, p, m)
      case Reported(rep) => [rep]
      case _ => []
  }

  /** The reports of the pieces, in their order. */
  function FailReports(job: Job, ps: seq<Piece>): seq<Report>
    requires forall q :: q in ps ==> Fits(job.text, q)
    decreases |ps|
  {
    if ps == [] then [] else PieceReports(job, ps[0]) + FailReports(job, ps[1..])
  }

  /** The position of the first piece whose callback throws. */
  function FirstThrow(job: Job, ps: seq<Piece>): (r: Option<nat>)
    ensures r.Some? ==> r.value < |ps| && Throws(job, ps[r.value])
    ensures r.Some? ==> forall k :: 0 <= k < r.value ==> !Throws(job, ps[k])
    ensures r.None? ==> forall k :: 0 <= k < |ps| ==> !Throws(job, ps[k])
    decreases |ps|
  {
    if ps == [] then None
    else if Throws(job, ps[0]) then Some(0)
    else
      var rest := FirstThrow(job, ps[1..]);
      assert forall k :: 1 <= k < |ps| ==> ps[k] == ps[1..][k - 1];
      if rest.Some? then Some(rest.value + 1) else None
  }

  /** The headline of a token whose callback throws. */
  function Headline(job: Job, q: Piece): Issue
    requires Throws(job, q)
  {
    HandleMatch(job.mode, job.table, job.text, job.path, q.at, q.m).headline
  }

  /** One piece whose callback does not throw appends its contribution and
      its report. */
  lemma StepReturns(job: Job, output: string, reports: seq<Report>, q: Piece)
    requires Fits(job.text, q) && !Throws(job, q)
    ensures Step(job, Done(output, reports), q)
         == Done(output + Contribution(job, q), reports + PieceReports(job, q))
  {
    if q.Plain? {
      assert Step(job, Done(output, reports), q) == Done(output + [job.text[q.at]], reports);
      assert reports + [] == reports;
    } else {
      var h := HandleMatch(job.mode, job.table, job.text, job.path, q.at, q.m);
      if h.Replaced? {
        assert Step(job, Done(output, reports), q) == Done(output + h.value, reports);
        assert reports + [] == reports;
      } else {
        assert h.Reported?;
        assert Step(job, Done(output, reports), q) == Done(output, reports + [h.report]);
        assert output + "" == output;
      }
    }
  }

  lemma AppendAssoc<T>(a: seq<T>, b: seq<T>, c: seq<T>)
    ensures (a + b) + c == a + (b + c)
  {
  }

  /** The reports of the pieces before position `n + 1` are those of the
      first piece followed by those of the rest before `n`. */
  lemma FailReportsPrefix(job: Job, ps: seq<Piece>, n: nat)
    requires forall q :: q in ps ==> Fits(job.text, q)
    requires n < |ps|
    ensures forall q :: q in ps[1..][..n] ==> Fits(job.text, q)
    ensures FailReports(job, ps[..n + 1]) == PieceReports(job, ps[0]) + FailReports(job, ps[1..][..n])
  {
    assert forall q :: q in ps[1..][..n] ==> q in ps;
    assert ps[..n + 1][1..] == ps[1..][..n];
  }

  /** A pass from a state that has not thrown, exactly: when no callback
      throws, the contributions of all pieces are appended to the output
      and their reports, in order, to the reports; otherwise the pass ends
      at the first throwing token with its headline, carrying the reports
      of the pieces before it. */
  lemma {:induction false} RenderExact(job: Job, output: string, reports: seq<Report>, ps: seq<Piece>)
    requires forall q :: q in ps ==> Fits(job.text, q)
    ensures RenderFrom(job, Done(output, reports), ps) ==
      match FirstThrow(job, ps)
      case None => Done(output + Contributions(job, ps), reports + FailReports(job, ps))
      case Some(n) => Aborted(reports + FailReports(job, ps[..n]), Headline(job, ps[n]))
    decreases |ps|
  {
    if ps != [] {
      var q := ps[0];
      assert forall q' :: q' in ps[1..] ==> q' in ps;
      if Throws(job, q) {
        var next := Step(job, Done(output, reports), q);
        assert next == Aborted(reports, Headline(job, q));
        AbortedSticks(job, next, ps[1..]);
        assert reports + FailReports(job, ps[..0]) == reports by {
          assert ps[..0] == [];
        }
      } else {
        StepReturns(job, output, reports, q);
        RenderExact(job, output + Contribution(job, q), reports + PieceReports(job, q), ps[1..]);
        match FirstThrow(job, ps[1..])
        case None =>
          AppendAssoc(output, Contribution(job, q), Contributions(job, ps[1..]));
          AppendAssoc(reports, PieceReports(job, q), FailReports(job, ps[1..]));
        case Some(n) =>
          FailReportsPrefix(job, ps, n);
          AppendAssoc(reports, PieceReports(job, q), FailReports(job, ps[1..][..n]));
          assert ps[1..][n] == ps[n + 1];
      }
    }
  }

  /** The outcome of the whole pass: with no throwing callback, the output
      is the contributions of the scan's pieces, which tile the text from
      left to right, and the reports are those of the failing tokens in
      order; otherwise the pass ends at the first throwing token, with its
      headline and the reports of the tokens before it. */
  lemma PassOutcome(job: Job)
    ensures var ps := Pieces(job.text, job.mode, 0);
      && Tiles(ps, 0, |job.text|)
      && Substitute(job) ==
        match FirstThrow(job, ps)
        case None => Done(Contributions(job, ps), FailReports(job, ps))
        case Some(n) => Aborted(FailReports(job, ps[..n]), Headline(job, ps[n]))
  {
    var ps := Pieces(job.text, job.mode, 0);
    PiecesFollowPattern(job.text, job.mode, 0);
    RenderExact(job, "", [], ps);
    assert "" + Contributions(job, ps) == Contributions(job, ps);
    assert [] + FailReports(job, ps) == FailReports(job, ps);
    if FirstThrow(job, ps).Some? {
      assert [] + FailReports(job, ps[..FirstThrow(job, ps).value]) == FailReports(job, ps[..FirstThrow(job, ps).value]);
    }
  }

  /** A callback throws exactly for a token without a replacement that has
      no line feed before it, and its headline is that token with the
      message of its failure. */
  lemma ThrowingToken(job: Job, q: Piece)
    requires Fits(job.text, q)
    ensures Throws(job, q) <==> q.Token? && Fails(job, q) && '\n' !in job.text[..q.at]
    ensures Throws(job, q) ==> Headline(job, q) == Issue(job.text[q.at..q.m.end], FailureMessage(job.mode, q.m))
  {
  }

  /** A token without a replacement logs one report, the one
      `logReplacementIssue` builds for it, unless its callback throws. */
  lemma ReportOfToken(job: Job, q: Piece)
    requires Fits(job.text, q)
    ensures |PieceReports(job, q)| == (if Fails(job, q) && !Throws(job, q) then 1 else 0)
    ensures PieceReports(job, q) != [] ==>
      Logged(PieceReports(job, q)[0])
        == LogReplacementIssue(job.text[q.at..q.m.end], q.at, job.text, job.path, FailureMessage(job.mode, q.m))
  {
  }

  /** Pieces that lie in the text and tile it start at or after where the
      tiling starts. */
  lemma TilesAscend(text: string, ps: seq<Piece>, from: nat, to: nat, k: nat)
    requires forall q :: q in ps ==> Fits(text, q)
    requires Tiles(ps, from, to) && k < |ps|
    ensures from <= ps[k].at
    decreases k
  {
    if k > 0 {
      assert Fits(text, ps[0]);
      assert forall q :: q in ps[1..] ==> q in ps;
      assert ps[1..][k - 1] == ps[k];
      TilesAscend(text, ps[1..], End(ps[0]), to, k - 1);
    }
  }

  /** Of two pieces that lie in the text and tile it, the earlier starts
      first. */
  lemma TilesOrdered(text: string, ps: seq<Piece>, from: nat, to: nat, k: nat, n: nat)
    requires forall q :: q in ps ==> Fits(text, q)
    requires Tiles(ps, from, to) && k < n < |ps|
    ensures ps[k].at < ps[n].at
    decreases k
  {
    assert Fits(text, ps[0]);
    assert forall q :: q in ps[1..] ==> q in ps;
    assert ps[1..][n - 1] == ps[n];
    if k == 0 {
      TilesAscend(text, ps[1..], End(ps[0]), to, n - 1);
    } else {
      assert ps[1..][k - 1] == ps[k];
      TilesOrdered(text, ps[1..], End(ps[0]), to, k - 1, n - 1);
    }
  }

  /** The pieces before the first line feed whose callbacks do not throw
      log nothing. */
  lemma QuietBeforeThrow(job: Job, ps: seq<Piece>, c: nat)
    requires forall q :: q in ps ==> Fits(job.text, q)
    requires c <= |job.text| && '\n' !in job.text[..c]
    requires forall k :: 0 <= k < |ps| ==> !Throws(job, ps[k]) && ps[k].at <= c
    ensures FailReports(job, ps) == []
    decreases |ps|
  {
    if ps != [] {
      QuietPiece(job, ps[0], c);
      assert forall q :: q in ps[1..] ==> q in ps;
      assert forall k :: 0 <= k < |ps| - 1 ==> ps[1..][k] == ps[k + 1];
      QuietBeforeThrow(job, ps[1..], c);
    }
  }

  /** A piece before the first line feed whose callback does not throw
      logs nothing. */
  lemma QuietPiece(job: Job, q: Piece, c: nat)
    requires Fits(job.text, q) && !Throws(job, q)
    requires q.at <= c <= |job.text| && '\n' !in job.text[..c]
    ensures PieceReports(job, q) == []
  {
    assert job.text[..q.at] == job.text[..c][..q.at];
    ThrowingToken(job, q);
    ReportOfToken(job, q);
  }

  /** A pass that throws has logged nothing: any failing token before the
      first throwing one would have no line feed before it either, and
      would throw. */
  lemma AbortedIsSilent(job: Job)
    ensures Substitute(job).Aborted? ==> Substitute(job).reports == []
  {
    var ps := Pieces(job.text, job.mode, 0);
    PassOutcome(job);
    if FirstThrow(job, ps).Some? {
      var n := FirstThrow(job, ps).value;
      var c := ps[n].at;
      ThrowingToken(job, ps[n]);
      forall k | 0 <= k < n ensures ps[..n][k].at <= c {
        TilesOrdered(job.text, ps, 0, |job.text|, k, n);
      }
      assert forall q :: q in ps[..n] ==> q in ps;
      QuietBeforeThrow(job, ps[..n], c);
    }
  }

  /** A token whose callback does not return a replacement. */
  predicate Fails(job: Job, q: Piece)
    requires Fits(job.text, q)
  {
    q.Token? && !HandleMatch(job.mode, job.table, job.text, job.path, q.at, q.m).Replaced?
  }

  function FailCount(job: Job, ps: seq<Piece>): nat
    requires forall q :: q in ps ==> Fits(job.text, q)
    decreases |ps|
  {
    if ps == [] then 0 else (if Fails(job, ps[0]) then 1 else 0) + FailCount(job, ps[1..])
  }

  /** From a state that has not thrown: the pass throws exactly when a
      failing token stands before the first line feed, and otherwise logs
      one report for every failing token. */
  lemma {:induction false} RenderFailures(job: Job, output: string, reports: seq<Report>, ps: seq<Piece>)
    requires forall q :: q in ps ==> Fits(job.text, q)
    ensures RenderFrom(job, Done(output, reports), ps).Aborted? <==>
      exists q :: q in ps && Fails(job, q) && '\n' !in job.text[..q.at]
    ensures RenderFrom(job, Done(output, reports), ps).Done? ==>
      |RenderFrom(job, Done(output, reports), ps).reports| == |reports| + FailCount(job, ps)
    decreases |ps|
  {
    if ps != [] {
      var q := ps[0];
      assert forall q' :: q' in ps[1..] ==> q' in ps;
      var next := Step(job, Done(output, reports), q);
      if next.Aborted? {
        AbortedSticks(job, next, ps[1..]);
        assert Fails(job, q) && '\n' !in job.text[..q.at];
      } else {
        RenderFailures(job, next.text, next.reports, ps[1..]);
        assert q.Token? ==>
          (HandleMatch(job.mode, job.table, job.text, job.path, q.at, q.m).Threw? <==>
           (Fails(job, q) && '\n' !in job.text[..q.at]));
        assert forall q' :: q' in ps ==> q' == q || q' in ps[1..];
      }
    }
  }

  /** The whole pass throws exactly when some token that cannot be resolved
      stands on the first line (where `getLine` finds no line feed);
      otherwise it reports each token that cannot be resolved exactly once. */
  lemma ThrowsIffFirstLineFailure(job: Job)
    ensures var ps := Pieces(job.text, job.mode, 0);
      Substitute(job).Aborted? <==> exists q :: q in ps && Fails(job, q) && '\n' !in job.text[..q.at]
    ensures Substitute(job).Done? ==> |Substitute(job).reports| == FailCount(job, Pieces(job.text, job.mode, 0))
  {
    RenderFailures(job, "", [], Pieces(job.text, job.mode, 0));
  }
}
