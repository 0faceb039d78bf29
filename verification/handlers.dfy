/** The replacement callbacks handed to the global replace
    (`getMatchHandlerWithPrefix` and `getMatchHandler` in
    gulp-tmpl-replace.js). The file's relative path, which the source reads
    from `this.file.relative`, is a parameter. */
module Handlers {
  import opened Wrappers
  import opened Diagnostics
  import opened Patterns

  const NoReplacement: string := "has no replacement!"

  function MissingPrefix(prefix: string): string
  {
    "replacement must start with '" + prefix + ".'"
  }

  /** What a callback does with one token: it returns the replacement, or it
      logs a report and returns the empty string, or `getLine` throws. */
  datatype Handled = Replaced(value: string) | Reported(report: Report) | Threw(headline: Issue)

  /** Both failure paths return "" after `logReplacementIssue`. */
  function Fail(token: string, offset: nat, text: string, path: string, message: string): (r: Handled)
    requires offset + |token| <= |text|
    ensures !r.Replaced?
    ensures r.Threw? <==> '\n' !in text[..offset]
    ensures r.Threw? ==> r.headline == Issue(token, message)
    ensures r.Reported? ==> r.report.issue == Issue(token, message) && r.report.path == path
    ensures r.Reported? ==> r.report.line == multiset(text[..offset])['\n'] + 1
    ensures r.Reported? ==> LogReplacementIssue(token, offset, text, path, message) == Logged(r.report)
  {
    match LogReplacementIssue(token, offset, text, path, message)
    case Logged(rep) => Reported(rep)
    case Crashed(h) => Threw(h)
  }

  /** `handleMatchesWithPrefix`: a token without the prefix group is an
      error; otherwise the key after the prefix is looked up as it is
      (untrimmed), and a key missing from the table is an error. */
  function HandleWithPrefix(
    prefix: string, table: map<string, string>, token: string,
    p1: Option<string>, p2: string, offset: nat, text: string, path: string): (r: Handled)
    requires offset + |token| <= |text|
    ensures r.Replaced? <==> p1.Some? && p2 in table
    ensures r.Replaced? ==> r.value == table[p2]
    ensures r.Threw? <==> !r.Replaced? && '\n' !in text[..offset]
    ensures p1.None? && r.Reported? ==> r.report.issue == Issue(token, MissingPrefix(prefix))
    ensures p1.None? && r.Threw? ==> r.headline == Issue(token, MissingPrefix(prefix))
    ensures p1.Some? && r.Reported? ==> r.report.issue == Issue(token, NoReplacement)
    ensures p1.Some? && r.Threw? ==> r.headline == Issue(token, NoReplacement)
    ensures r.Reported? ==>
      LogReplacementIssue(token, offset, text, path, if p1.None? then MissingPrefix(prefix) else NoReplacement)
        == Logged(r.report)
  {
    if p1.None? then Fail(token, offset, text, path, MissingPrefix(prefix))
    else if p2 !in table then Fail(token, offset, text, path, NoReplacement)
    else Replaced(table[p2])
  }

  /** `handleMatches`: the whole text between the '@'s is the key. */
  function HandleUnprefixed(
    table: map<string, string>, token: string, p1: string, offset: nat, text: string, path: string): (r: Handled)
    requires offset + |token| <= |text|
    ensures r.Replaced? <==> p1 in table
    ensures r.Replaced? ==> r.value == table[p1]
    ensures r.Threw? <==> p1 !in table && '\n' !in text[..offset]
    ensures r.Reported? ==> r.report.issue == Issue(token, NoReplacement)
    ensures r.Threw? ==> r.headline == Issue(token, NoReplacement)
    ensures r.Reported? ==> LogReplacementIssue(token, offset, text, path, NoReplacement) == Logged(r.report)
  {
    if p1 !in table then Fail(token, offset, text, path, NoReplacement)
    else Replaced(table[p1])
  }

  /** The message logged for a match whose key has no replacement or, in a
      prefixed mode, that lacks the prefix group. */
  function FailureMessage(mode: Mode, m: Match): string
  {
    if mode.Prefixed? && m.group.None? then MissingPrefix(mode.prefix) else NoReplacement
  }

  /** The callback of the configured mode, called with the matched text,
      the groups, the offset and the whole text. */
  function HandleMatch(mode: Mode, table: map<string, string>, text: string, path: string, at: nat, m: Match): Handled
    requires at <= m.end <= |text|
  {
    var token := text[at..m.end];
    match mode
    case Prefixed(p, _) => HandleWithPrefix(p, table, token, m.group, m.key, at, text, path)
    case Unprefixed => HandleUnprefixed(table, token, m.key, at, text, path)
  }
}
