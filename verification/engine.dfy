/** Construction of the substitution engine (`GulpExistTmplReplace` in
    gulp-tmpl-replace.js): the options are checked, the replacements merged
    and the pattern with its callback chosen. The engine is the mode and the
    table; `Scanner.Replace` is what it then does to every file. */
module Engine {
  import opened Wrappers
  import opened Replacements
  import opened Patterns

  /** The options object. The replacements are absent when the option is
      missing or falsy; `unprefixed` and `debug` are taken by truthiness. */
  datatype Options = Options(replacements: Option<Source>, prefix: Option<string>, unprefixed: bool, debug: bool)

  /** The messages of the two errors construction throws. */
  const SubstitutionsMissing: string := "Substitutions missing"
  const InvalidPrefix: string := "Invalid prefix, only [a-zA-Z0-9] allowed"

  datatype Engine = Engine(mode: Mode, table: map<string, string>)

  predicate IsAlnum(c: char)
  {
    'a' <= c <= 'z' || 'A' <= c <= 'Z' || '0' <= c <= '9'
  }

  /** A prefix counts as given when it is a non-empty string: the empty
      string is falsy in JavaScript. */
  predicate Given(prefix: Option<string>)
  {
    prefix.Some? && prefix.value != ""
  }

  /** Whether `/[^a-zA-Z0-9]/` finds a match in `p`. */
  function HasInvalidChar(p: string): (r: bool)
    ensures r <==> exists k :: 0 <= k < |p| && !IsAlnum(p[k])
  {
    if p == [] then false
    else
      assert forall k :: 1 <= k < |p| ==> p[k] == p[1..][k - 1];
      !IsAlnum(p[0]) || HasInvalidChar(p[1..])
  }

  /** The pattern chosen by the successive `if`s: the default prefix when
      neither `prefix` nor `unprefixed` is set, the given prefix when one is,
      and the unprefixed pattern whenever `unprefixed` is set, even beside a
      prefix, because that `if` comes last. */
  method SelectMode(prefix: Option<string>, unprefixed: bool) returns (mode: Mode)
    ensures unprefixed ==> mode == Unprefixed
    ensures !unprefixed && Given(prefix) ==> mode == Prefixed(prefix.value, AnyChar)
    ensures !unprefixed && !Given(prefix) ==> mode == Prefixed(DefaultPrefix, LiteralDot)
  {
    var pattern: Option<Mode> := None;
    if !Given(prefix) && !unprefixed {
      pattern := Some(Prefixed(DefaultPrefix, LiteralDot));
    }
    if Given(prefix) {
      pattern := Some(Prefixed(prefix.value, AnyChar));
    }
    if unprefixed {
      pattern := Some(Unprefixed);
    }
    mode := pattern.value;
  }

  /** The caller's array, when the replacements are a list: the merge
      reverses it in place. */
  function Arrays(options: Option<Options>): set<object>
  {
    if options.Some? && options.value.replacements.Some? && options.value.replacements.value.Many?
    then {options.value.replacements.value.objs}
    else {}
  }

  /** `GulpExistTmplReplace`: the checks, in the source's order, then the
      merge (which reverses a caller's list in place) and the mode. */
  method Create(options: Option<Options>) returns (r: Result<Engine, string>)
    modifies Arrays(options)
    ensures options.None? || options.value.replacements.None? ==> r == Failure(SubstitutionsMissing)
    ensures options.Some? && options.value.replacements.Some? && Given(options.value.prefix) ==>
      (HasInvalidChar(options.value.prefix.value) <==> r == Failure(InvalidPrefix))
    ensures r.Success? <==>
      && options.Some? && options.value.replacements.Some?
      && !(Given(options.value.prefix) && HasInvalidChar(options.value.prefix.value))
    ensures r.Failure? ==> unchanged(Arrays(options))
    ensures r.Success? ==> (r.value.mode ==
      if options.value.unprefixed then Unprefixed
      else if Given(options.value.prefix) then Prefixed(options.value.prefix.value, AnyChar)
      else Prefixed(DefaultPrefix, LiteralDot))
    ensures r.Success? && options.value.replacements.value.Single? ==>
      r.value.table == options.value.replacements.value.obj
    ensures r.Success? && options.value.replacements.value.Many? ==>
      var objs := options.value.replacements.value.objs;
      r.value.table == FirstWins(old(objs[..])) && objs[..] == Reversed(old(objs[..]))
  {
    if options.None? || options.value.replacements.None? {
      return Failure(SubstitutionsMissing);
    }
    var opts := options.value;
    if Given(opts.prefix) && HasInvalidChar(opts.prefix.value) {
      return Failure(InvalidPrefix);
    }
    var table := Merge(opts.replacements.value);
    var mode := SelectMode(opts.prefix, opts.unprefixed);
    r := Success(Engine(mode, table));
  }
}
