/**
 * Choosing which tests to list or run (`lib/index.js` `getTests`): no
 * pattern selects every test, a pattern starting with `/` is a regular
 * expression matched against each test's full title, and any other pattern
 * must be a prefix of the full title.
 */
module Selection {
  import opened Js
  import Seqs
  import Resolver

  type Test = Resolver.Spec

  /**
   * A compiled regular expression: whether it matches a string. Compiling
   * belongs to the JavaScript engine and is a parameter of the model; it may
   * throw a `SyntaxError`.
   */
  type Matcher = string -> bool
  type Compiler = string -> Result<Matcher>

  /** The full title a pattern is matched against. */
  function Title(t: Test): string {
    Resolver.FullTitle(t.prefix, t.name)
  }

  /**
   * `pattern.slice(1, pattern.length - 1)`: the text between the first and
   * the last character; a one-character pattern gives the empty string.
   */
  function RegexSource(p: string): (r: string)
    ensures |p| >= 2 ==> r == p[1..|p| - 1]
    ensures |p| < 2 ==> r == ""
  {
    if |p| < 2 then "" else p[1..|p| - 1]
  }

  /** A pattern written as `/src/` hands exactly `src` to the compiler. */
  lemma LemmaRegexSource(src: string)
    ensures RegexSource("/" + src + "/") == src
  {
    var p := "/" + src + "/";
    assert p[1..|p| - 1] == src;
  }

  /** How `getTests` reads its pattern. */
  datatype Selector = All | Matching(matches: Matcher) | Prefix(prefix: string)

  /**
   * A missing or empty pattern (both falsy) selects everything, a leading
   * `/` makes a regular expression, anything else is a prefix.
   */
  function Select(pattern: Option<string>, compile: Compiler): (r: Result<Selector>)
    ensures pattern.None? || pattern.value == "" ==> r == Ok(All)
    ensures pattern.Some? && pattern.value != "" && pattern.value[0] == '/' ==>
      (r.Throws? <==> compile(RegexSource(pattern.value)).Throws?)
    ensures pattern.Some? && pattern.value != "" && pattern.value[0] == '/' && compile(RegexSource(pattern.value)).Ok? ==>
      r == Ok(Matching(compile(RegexSource(pattern.value)).value))
    ensures pattern.Some? && pattern.value != "" && pattern.value[0] != '/' ==> r == Ok(Prefix(pattern.value))
  {
    if pattern.None? || pattern.value == "" then Ok(All)
    else if pattern.value[0] == '/' then
      match compile(RegexSource(pattern.value))
      case Throws(e) => Throws(e)
      case Ok(m) => Ok(Matching(m))
    else Ok(Prefix(pattern.value))
  }

  /** The `filter` callback: a regular expression matches the title, a prefix starts it. */
  function Keeps(s: Selector, t: Test): bool {
    match s
    case All => true
    case Matching(m) => m(Title(t))
    case Prefix(p) => p <= Title(t)
  }

  /**
   * `getTests(pattern)`: the loaded tests the pattern selects, in their
   * loading order; a regular expression that does not compile throws.
   */
  function GetTests(tests: seq<Test>, pattern: Option<string>, compile: Compiler): (r: Result<seq<Test>>)
    ensures r.Throws? <==> Select(pattern, compile).Throws?
    ensures pattern.None? || pattern.value == "" ==> r == Ok(tests)
    ensures r.Ok? ==> Seqs.Subsequence(r.value, tests)
    ensures r.Ok? ==> forall i :: 0 <= i < |r.value| ==> Keeps(Select(pattern, compile).value, r.value[i])
    ensures r.Ok? ==> forall i :: 0 <= i < |tests| && Keeps(Select(pattern, compile).value, tests[i]) ==> tests[i] in r.value
    ensures r.Ok? ==> forall i :: 0 <= i < |tests| ==>
      multiset(r.value)[tests[i]] == if Keeps(Select(pattern, compile).value, tests[i]) then multiset(tests)[tests[i]] else 0
  {
    match Select(pattern, compile)
    case Throws(e) => Throws(e)
    case Ok(All) =>
      Seqs.LemmaFilterAll(tests, (t: Test) => Keeps(All, t));
      Ok(tests)
    case Ok(s) =>
      Seqs.LemmaFilterCount(tests, (t: Test) => Keeps(s, t));
      Ok(Seqs.Filter(tests, (t: Test) => Keeps(s, t)))
  }

  /** Filtering twice with a test the first filter already implies keeps the second result. */
  lemma {:induction false} LemmaFilterNarrows(xs: seq<Test>, p: Test -> bool, q: Test -> bool)
    requires forall t :: q(t) ==> p(t)
    ensures Seqs.Filter(Seqs.Filter(xs, p), q) == Seqs.Filter(xs, q)
    decreases |xs|
  {
    if |xs| > 0 {
      Seqs.LemmaFilterCons(xs, p);
      Seqs.LemmaFilterCons(xs, q);
      LemmaFilterNarrows(xs[1..], p, q);
      if p(xs[0]) {
        var f := Seqs.Filter(xs, p);
        assert f[0] == xs[0] && f[1..] == Seqs.Filter(xs[1..], p);
        Seqs.LemmaFilterCons(f, q);
      }
    }
  }

  /** Selecting again with the same pattern changes nothing. */
  lemma LemmaGetTestsIdempotent(tests: seq<Test>, pattern: Option<string>, compile: Compiler)
    requires GetTests(tests, pattern, compile).Ok?
    ensures GetTests(GetTests(tests, pattern, compile).value, pattern, compile) == GetTests(tests, pattern, compile)
  {
    var s := Select(pattern, compile).value;
    if !s.All? {
      var p := (t: Test) => Keeps(s, t);
      LemmaFilterNarrows(tests, p, p);
    }
  }

  /** A longer prefix selects the tests a shorter one selects, narrowed further. */
  lemma LemmaLongerPrefixNarrows(tests: seq<Test>, short: string, long: string, compile: Compiler)
    requires short != "" && short[0] != '/' && short <= long
    ensures GetTests(tests, Some(long), compile) == GetTests(GetTests(tests, Some(short), compile).value, Some(long), compile)
  {
    assert long != "" && long[0] == short[0];
    var p := (t: Test) => Keeps(Prefix(short), t);
    var q := (t: Test) => Keeps(Prefix(long), t);
    forall t: Test | q(t)
      ensures p(t)
    {
      assert long <= Title(t);
    }
    LemmaFilterNarrows(tests, p, q);
  }

  /** A test's own full title, used as a pattern, selects that test (unless the title starts with `/`). */
  lemma LemmaOwnTitleSelects(tests: seq<Test>, i: nat, compile: Compiler)
    requires i < |tests| && Title(tests[i]) != "" && Title(tests[i])[0] != '/'
    ensures GetTests(tests, Some(Title(tests[i])), compile).Ok?
    ensures tests[i] in GetTests(tests, Some(Title(tests[i])), compile).value
  {
  }
}
