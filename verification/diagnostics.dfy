/** The report written for a token that cannot be resolved
    (`logReplacementIssue`, `getLine` and `ellipsis` in gulp-tmpl-replace.js).
    The three console lines become a value the caller receives. */
module Diagnostics {
  import opened Wrappers

  /** How many characters of context are shown on each side of a token. */
  const ContextCharacters: nat := 20

  /** The first console line: the offending token and what is wrong with it. */
  datatype Issue = Issue(token: string, message: string)

  /** A complete diagnostic: the issue, the line and file it was found in,
      and the context around the token with its ellipsis markers. */
  datatype Report = Report(
    issue: Issue,
    line: nat,
    path: string,
    before: string,
    leading: bool,
    after: string,
    trailing: bool)

  /** `logReplacementIssue` either completes its report, or throws from
      `getLine` after the headline has been written. */
  datatype Logged = Logged(report: Report) | Crashed(headline: Issue)

  /** The context around a token: the text shown before and after it and
      whether an ellipsis marker goes on either side. */
  datatype Window = Window(before: string, leading: bool, after: string, trailing: bool)

  function Min(a: int, b: int): int { if a <= b then a else b }

  function Max(a: int, b: int): int { if a <= b then b else a }

  /** `ellipsis`: the marker for shortened context. */
  function Ellipsis(display: bool): (r: string)
    ensures display <==> |r| == 3
    ensures display || r == ""
    ensures forall k :: 0 <= k < |r| ==> r[k] == '.'
  {
    if display then "..." else ""
  }

  /** The number of line feeds in `s`. */
  function NewlineCount(s: string): (n: nat)
    ensures n == multiset(s)['\n']
  {
    if s == [] then 0
    else
      assert s == s[..|s| - 1] + [s[|s| - 1]];
      NewlineCount(s[..|s| - 1]) + (if s[|s| - 1] == '\n' then 1 else 0)
  }

  /** `getLine`: one more than the number of line feeds before `offset`.
      The source takes the length of the list of matches of /\n/g, which is
      null when there is none, so with no line feed before the offset the
      call throws; that case is None here. */
  function GetLine(text: string, offset: nat): (r: Option<nat>)
    requires offset <= |text|
    ensures r.Some? <==> '\n' in text[..offset]
    ensures r.Some? ==> r.value == multiset(text[..offset])['\n'] + 1
    ensures r.Some? ==> r.value >= 2
  {
    var n := NewlineCount(text[..offset]);
    if n == 0 then None else Some(n + 1)
  }

  /** The context arithmetic of `logReplacementIssue`: at most
      ContextCharacters characters on each side of the token, a leading
      marker exactly when the text before was cut, and a trailing marker
      exactly when the text after was NOT cut (the window reaches the end). */
  function ContextWindow(text: string, offset: nat, matchEnd: nat): (w: Window)
    requires offset <= matchEnd <= |text|
    ensures |w.before| == Min(offset, ContextCharacters)
    ensures w.before == text[offset - |w.before|..offset]
    ensures w.leading <==> offset > ContextCharacters
    ensures |w.after| == Min(|text| - matchEnd, ContextCharacters)
    ensures w.after == text[matchEnd..matchEnd + |w.after|]
    ensures w.trailing <==> |text| <= matchEnd + ContextCharacters
  {
    var startIndex := Max(0, offset - ContextCharacters);
    var endIndex := Min(|text|, matchEnd + ContextCharacters);
    Window(text[startIndex..offset], startIndex != 0, text[matchEnd..endIndex], endIndex == |text|)
  }

  /** `logReplacementIssue` for the token `token` found at `offset` of `text`:
      the report with its line and context, or, when no line feed precedes
      the token, the headline written just before `getLine` throws. */
  function LogReplacementIssue(token: string, offset: nat, text: string, path: string, message: string): (r: Logged)
    requires offset + |token| <= |text|
    ensures r.Crashed? <==> '\n' !in text[..offset]
    ensures r.Crashed? ==> r.headline == Issue(token, message)
    ensures r.Logged? ==> r.report.issue == Issue(token, message) && r.report.path == path
    ensures r.Logged? ==> r.report.line == multiset(text[..offset])['\n'] + 1
    ensures r.Logged? ==>
      Window(r.report.before, r.report.leading, r.report.after, r.report.trailing)
        == ContextWindow(text, offset, offset + |token|)
  {
    var w := ContextWindow(text, offset, offset + |token|);
    match GetLine(text, offset)
    case None => Crashed(Issue(token, message))
    case Some(line) => Logged(Report(Issue(token, message), line, path, w.before, w.leading, w.after, w.trailing))
  }

  /** The third console line without its colour codes: markers, context
      before, the token, context after, markers. */
  function Snippet(rep: Report): (s: string)
    ensures |s| == |Ellipsis(rep.leading)| + |rep.before| + |rep.issue.token| + |rep.after| + |Ellipsis(rep.trailing)|
    ensures rep.leading ==> s[..3] == "..."
    ensures rep.trailing ==> s[|s| - 3..] == "..."
    ensures var at := |Ellipsis(rep.leading)| + |rep.before|;
      && s[at - |rep.before|..at] == rep.before
      && s[at..at + |rep.issue.token|] == rep.issue.token
      && s[at + |rep.issue.token|..at + |rep.issue.token| + |rep.after|] == rep.after
  {
    Ellipsis(rep.leading) + (rep.before + rep.issue.token + rep.after) + Ellipsis(rep.trailing)
  }

  /** The snippet of a logged report, markers aside, is the text around the
      token exactly as it stands in the file. The leading marker shows that
      text was cut before it; the trailing marker, as written, shows that
      nothing was cut after it. */
  lemma SnippetShowsText(token: string, offset: nat, text: string, path: string, message: string, rep: Report)
    requires offset + |token| <= |text| && text[offset..offset + |token|] == token
    requires LogReplacementIssue(token, offset, text, path, message) == Logged(rep)
    ensures |rep.before| <= offset && offset + |token| + |rep.after| <= |text|
    ensures Snippet(rep)[|Ellipsis(rep.leading)|..|Snippet(rep)| - |Ellipsis(rep.trailing)|]
         == text[offset - |rep.before|..offset + |token| + |rep.after|]
    ensures rep.leading <==> |rep.before| < offset
    ensures rep.trailing <==> offset + |token| + |rep.after| == |text|
  {
    WindowSnippet(text, offset, token, rep);
  }

  /** SnippetShowsText for any report whose context is the window around the token. */
  lemma WindowSnippet(text: string, offset: nat, token: string, rep: Report)
    requires offset + |token| <= |text| && text[offset..offset + |token|] == token
    requires rep.issue.token == token
    requires Window(rep.before, rep.leading, rep.after, rep.trailing) == ContextWindow(text, offset, offset + |token|)
    ensures |rep.before| <= offset && offset + |token| + |rep.after| <= |text|
    ensures Snippet(rep)[|Ellipsis(rep.leading)|..|Snippet(rep)| - |Ellipsis(rep.trailing)|]
         == text[offset - |rep.before|..offset + |token| + |rep.after|]
    ensures rep.leading <==> |rep.before| < offset
    ensures rep.trailing <==> offset + |token| + |rep.after| == |text|
  {
    SnippetMiddle(rep);
    WindowText(text, offset, token, rep.before, rep.after);
  }

  /** The snippet without its markers: context, token, context. */
  lemma SnippetMiddle(rep: Report)
    ensures var s := Snippet(rep);
      s[|Ellipsis(rep.leading)|..|s| - |Ellipsis(rep.trailing)|] == rep.before + rep.issue.token + rep.after
  {
    Middle(Ellipsis(rep.leading), rep.before + rep.issue.token + rep.after, Ellipsis(rep.trailing));
  }

  /** Context read just before and just after a token, side by side with
      it, is one slice of the text. */
  lemma WindowText(text: string, offset: nat, token: string, before: string, after: string)
    requires |before| <= offset && offset + |token| + |after| <= |text|
    requires text[offset..offset + |token|] == token
    requires before == text[offset - |before|..offset]
    requires after == text[offset + |token|..offset + |token| + |after|]
    ensures text[offset - |before|..offset + |token| + |after|] == before + token + after
  {
    Thirds(text, offset - |before|, offset, offset + |token|, offset + |token| + |after|);
  }

  /** The middle of a concatenation of three sequences. */
  lemma Middle(a: string, b: string, c: string)
    ensures (a + b + c)[|a|..|a + b + c| - |c|] == b
  {
    assert a + b + c == a + (b + c);
  }

  /** A slice cut in three. */
  lemma Thirds(text: string, i: nat, j: nat, k: nat, l: nat)
    requires i <= j <= k <= l <= |text|
    ensures text[i..l] == text[i..j] + text[j..k] + text[k..l]
  {
    assert text[i..l] == text[i..j] + text[j..l];
    assert text[j..l] == text[j..k] + text[k..l];
  }

  /** The example of a token on the third line: two line feeds precede it. */
  lemma ThirdLineExample()
    ensures GetLine("a\nb\n@x@", 4) == Some(3)
  {
    assert "a\nb\n@x@"[..4] == "a\nb\n";
    assert multiset("a\nb\n")['\n'] == 2;
  }
}
