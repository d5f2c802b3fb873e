/**
 * `compileRouteFilters`: a route filter such as `admin.*` is turned into the source text of an
 * anchored JavaScript RegExp by escaping every `.`, expanding the FIRST `*` into `.*` and adding
 * `^` and `$`. The RegExp text is then given its meaning by a small interpreter for the fragment
 * of RegExp syntax that this compilation produces (literal characters, `\.`, `.` and `.*`).
 *
 * Within the patterns the model admits (letters, digits, `_`, `-`, `.` and at most one `*`) the
 * compiled RegExp matches exactly what `GlobMatch` says: the whole name equals the pattern, or,
 * with a `*`, starts with the text before it, ends with the text after it and is long enough for
 * both, the characters in between being free of line terminators (JavaScript's `.` does not
 * match `\n`, `\r`, U+2028 or U+2029).
 */
module Patterns {

  import opened Wrappers
  import opened JsStrings

  // ----- Filters -----

  /** Characters a filter may contain besides `.` and `*`; none of them is special in a RegExp. */
  predicate IsPlain(c: char)
  {
    ('a' <= c <= 'z') || ('A' <= c <= 'Z') || ('0' <= c <= '9') || c == '_' || c == '-'
  }

  /** A filter the model covers: plain characters, `.` and at most one `*`. */
  predicate ValidPattern(p: string)
  {
    && (forall i :: 0 <= i < |p| ==> IsPlain(p[i]) || p[i] == '.' || p[i] == '*')
    && (forall i, j :: 0 <= i < j < |p| && p[i] == '*' ==> p[j] != '*')
  }

  predicate AllValid(ps: seq<string>)
  {
    forall i :: 0 <= i < |ps| ==> ValidPattern(ps[i])
  }

  /** Position of the first `c` in `s`. */
  function IndexOf(s: string, c: char): (k: nat)
    requires c in s
    ensures k < |s| && s[k] == c && c !in s[..k]
  {
    if s[0] == c then 0 else 1 + IndexOf(s[1..], c)
  }

  predicate IsLineTerminator(c: char)
  {
    c == '\n' || c == '\r' || c == '\U{2028}' || c == '\U{2029}'
  }

  predicate NoLineTerminator(s: string)
  {
    s == [] || (!IsLineTerminator(s[0]) && NoLineTerminator(s[1..]))
  }

  /**
   * What a filter is meant to match: the name itself when there is no `*`; otherwise any name
   * made of the text before the `*`, then any run of characters other than line terminators,
   * then the text after the `*`.
   */
  predicate GlobMatch(p: string, s: string)
  {
    if '*' !in p then s == p
    else
      var k := IndexOf(p, '*');
      var pre, suf := p[..k], p[k + 1..];
      && |s| >= |pre| + |suf|
      && s[..|pre|] == pre
      && s[|s| - |suf|..] == suf
      && NoLineTerminator(s[|pre|..|s| - |suf|])
  }

  // ----- Compilation (the string transformation) -----

  /**
   * The RegExp source `compileRouteFilters` builds from one filter: `replaceAll('.', '\\.')`,
   * then, when a `*` is present, `replace('*', '.*')` (first occurrence only), then `^...$`.
   * When the filter is one the model covers, the text parses to the tokens of its glob meaning.
   */
  function CompileRouteFilter(p: string): (src: string)
    ensures ValidPattern(p) ==> Parse(src) == Some(GlobTokens(p))
  {
    var src := "^" + ExpandFirstStar(EscapeDots(p)) + "$";
    if ValidPattern(p) then
      CompileParses(p);
      src
    else
      src
  }

  /** `filter.replaceAll('.', '\\.')` */
  function EscapeDots(p: string): string
  {
    ReplaceAll(p, '.', "\\.")
  }

  /** `if (filter.includes('*')) filter = filter.replace('*', '.*')` */
  function ExpandFirstStar(e: string): string
  {
    if '*' in e then ReplaceFirst(e, "*", ".*") else e
  }

  /**
   * `filters.map(...)`: every filter compiled, in order; for covered filters, each RegExp text
   * parses to the glob tokens of the filter at the same position.
   */
  function CompileRouteFilters(ps: seq<string>): (srcs: seq<string>)
    ensures |srcs| == |ps|
    ensures forall i :: 0 <= i < |ps| ==> srcs[i] == CompileRouteFilter(ps[i])
    ensures AllValid(ps) ==> forall i :: 0 <= i < |ps| ==> Parse(srcs[i]) == Some(GlobTokens(ps[i]))
  {
    seq(|ps|, i requires 0 <= i < |ps| => CompileRouteFilter(ps[i]))
  }

  // ----- The RegExp fragment and its meaning -----

  /** A RegExp atom of the fragment: a literal character, `.` (any character) or `.*`. */
  datatype Token = Lit(c: char) | AnyChar | AnyRun

  /** `Some(ts + rest)` when the rest parsed, `None` otherwise. */
  function Prepend(ts: seq<Token>, rest: Option<seq<Token>>): Option<seq<Token>>
  {
    if rest.Some? then Some(ts + rest.value) else None
  }

  /**
   * Reads RegExp text between the anchors left to right: `\.` is a literal dot, `.*` any run,
   * `.` any character, a plain character itself. Anything else (another escape, a quantifier
   * after something other than `.`, a group, a class) lies outside the fragment: `None`.
   */
  function ParseBody(b: string): Option<seq<Token>>
    decreases |b|
  {
    if b == [] then Some([])
    else if b[0] == '\\' then
      if |b| >= 2 && b[1] == '.' then Prepend([Lit('.')], ParseBody(b[2..])) else None
    else if b[0] == '.' then
      if |b| >= 2 && b[1] == '*' then Prepend([AnyRun], ParseBody(b[2..]))
      else Prepend([AnyChar], ParseBody(b[1..]))
    else if IsPlain(b[0]) then Prepend([Lit(b[0])], ParseBody(b[1..]))
    else None
  }

  /** Reads a RegExp source anchored with `^` and `$`. */
  function Parse(src: string): Option<seq<Token>>
  {
    if |src| >= 2 && src[0] == '^' && src[|src| - 1] == '$' then ParseBody(src[1..|src| - 1])
    else None
  }

  /** The anchored match of a token sequence against a whole string (all backtracking choices). */
  predicate MatchTokens(ts: seq<Token>, s: string)
    decreases |s|, |ts|
  {
    if ts == [] then s == []
    else match ts[0]
      case Lit(c) => |s| > 0 && s[0] == c && MatchTokens(ts[1..], s[1..])
      case AnyChar => |s| > 0 && !IsLineTerminator(s[0]) && MatchTokens(ts[1..], s[1..])
      case AnyRun =>
        MatchTokens(ts[1..], s) || (|s| > 0 && !IsLineTerminator(s[0]) && MatchTokens(ts, s[1..]))
  }

  /** `regex.test(name)` for a RegExp source inside the fragment. */
  predicate Test(src: string, name: string)
    requires Parse(src).Some?
  {
    MatchTokens(Parse(src).value, name)
  }

  /** `matchers.some((filter) => filter.test(name))` */
  predicate AnyTest(matchers: seq<string>, name: string)
    requires forall i :: 0 <= i < |matchers| ==> Parse(matchers[i]).Some?
  {
    exists i :: 0 <= i < |matchers| && Test(matchers[i], name)
  }

  // ----- Tokens of a glob and the proofs -----

  function Lits(x: string): seq<Token>
  {
    seq(|x|, i requires 0 <= i < |x| => Lit(x[i]))
  }

  /** The tokens a filter compiles to: its characters, with `.*` in place of its `*`. */
  function GlobTokens(p: string): seq<Token>
  {
    if '*' !in p then Lits(p)
    else
      var k := IndexOf(p, '*');
      Lits(p[..k]) + ([AnyRun] + Lits(p[k + 1..]))
  }

  lemma ParseEscapedDot(t: string)
    ensures ParseBody("\\." + t) == Prepend([Lit('.')], ParseBody(t))
  {
    var b := "\\." + t;
    assert b[0] == '\\' && b[1] == '.' && b[2..] == t;
  }

  lemma ParsePlain(c: char, t: string)
    requires IsPlain(c)
    ensures ParseBody([c] + t) == Prepend([Lit(c)], ParseBody(t))
  {
    var b := [c] + t;
    assert b[0] == c && b[1..] == t;
  }

  lemma ParseRun(t: string)
    ensures ParseBody(".*" + t) == Prepend([AnyRun], ParseBody(t))
  {
    var b := ".*" + t;
    assert b[0] == '.' && b[1] == '*' && b[2..] == t;
  }

  lemma PrependTwice(a: seq<Token>, b: seq<Token>, o: Option<seq<Token>>)
    ensures Prepend(a, Prepend(b, o)) == Prepend(a + b, o)
  {
    if o.Some? {
      assert a + (b + o.value) == (a + b) + o.value;
    }
  }

  /** Escaped filter text reads back as the literal characters of the filter. */
  lemma {:induction false} ParseEscaped(x: string, rest: string)
    requires forall i :: 0 <= i < |x| ==> IsPlain(x[i]) || x[i] == '.'
    ensures ParseBody(EscapeDots(x) + rest) == Prepend(Lits(x), ParseBody(rest))
  {
    if x == [] {
      assert EscapeDots(x) + rest == rest;
      assert Lits(x) == [];
      if ParseBody(rest).Some? {
        assert [] + ParseBody(rest).value == ParseBody(rest).value;
      }
    } else {
      var e := EscapeDots(x[1..]);
      var head := if x[0] == '.' then "\\." else [x[0]];
      assert EscapeDots(x) == head + e;
      assert EscapeDots(x) + rest == head + (e + rest);
      ParseEscaped(x[1..], rest);
      if x[0] == '.' {
        ParseEscapedDot(e + rest);
      } else {
        ParsePlain(x[0], e + rest);
      }
      assert Lits(x) == [Lit(x[0])] + Lits(x[1..]);
      PrependTwice([Lit(x[0])], Lits(x[1..]), ParseBody(rest));
    }
  }

  /** With one `*` in a filter, escaping keeps it as the single `*` between the escaped halves. */
  lemma EscapeAroundStar(pre: string, suf: string)
    requires forall i :: 0 <= i < |pre| ==> IsPlain(pre[i]) || pre[i] == '.'
    ensures EscapeDots(pre + "*" + suf) == EscapeDots(pre) + "*" + EscapeDots(suf)
    ensures '*' !in EscapeDots(pre)
  {
    ReplaceAllConcat(pre + "*", suf, '.', "\\.");
    ReplaceAllConcat(pre, "*", '.', "\\.");
    assert ReplaceAll("*", '.', "\\.") == "*";
    assert '*' !in pre;
    ReplaceAllNoNewChar(pre, '.', "\\.", '*');
  }

  /** `replace('*', '.*')` on `a + "*" + b` with no `*` in `a` gives `a + ".*" + b`. */
  lemma ExpandAtStar(a: string, b: string)
    requires '*' !in a
    ensures ExpandFirstStar(a + "*" + b) == a + ".*" + b
  {
    var e := a + "*" + b;
    assert e[|a|] == '*';
    assert OccursAt(e, "*", |a|) by { assert e[|a|..|a| + 1] == "*"; }
    forall j | 0 <= j < |a|
      ensures !OccursAt(e, "*", j)
    {
      assert e[j] == a[j];
      assert e[j..j + 1] == [e[j]];
    }
    ReplaceFirstAtFirstOccurrence(e, "*", ".*", |a|);
    assert e[..|a|] == a;
    assert e[|a| + 1..] == b;
  }

  /** The compiled text of a covered filter parses to its glob tokens. */
  lemma CompileParses(p: string)
    requires ValidPattern(p)
    ensures Parse("^" + ExpandFirstStar(EscapeDots(p)) + "$") == Some(GlobTokens(p))
  {
    var body := ExpandFirstStar(EscapeDots(p));
    var src := "^" + body + "$";
    assert src[1..|src| - 1] == body;
    assert Parse(src) == ParseBody(body);
    if '*' !in p {
      ReplaceAllNoNewChar(p, '.', "\\.", '*');
      assert body == EscapeDots(p);
      ParseEscaped(p, []);
      assert EscapeDots(p) + [] == EscapeDots(p);
      assert ParseBody([]) == Some([]);
      assert Lits(p) + [] == Lits(p);
    } else {
      var k := IndexOf(p, '*');
      var pre, suf := p[..k], p[k + 1..];
      assert p == pre + "*" + suf;
      assert forall i :: 0 <= i < |suf| ==> suf[i] == p[k + 1 + i];
      CompileParsesStar(pre, suf);
    }
  }

  lemma CompileParsesStar(pre: string, suf: string)
    requires forall i :: 0 <= i < |pre| ==> IsPlain(pre[i]) || pre[i] == '.'
    requires forall i :: 0 <= i < |suf| ==> IsPlain(suf[i]) || suf[i] == '.'
    ensures ParseBody(ExpandFirstStar(EscapeDots(pre + "*" + suf)))
         == Some(Lits(pre) + ([AnyRun] + Lits(suf)))
  {
    CompiledTextWithStar(pre, suf);
    ParseCompiledTextWithStar(pre, suf);
  }

  /** With one `*`, the compiled text is the escaped prefix, `.*`, then the escaped suffix. */
  lemma CompiledTextWithStar(pre: string, suf: string)
    requires forall i :: 0 <= i < |pre| ==> IsPlain(pre[i]) || pre[i] == '.'
    ensures ExpandFirstStar(EscapeDots(pre + "*" + suf)) == EscapeDots(pre) + ".*" + EscapeDots(suf)
  {
    EscapeAroundStar(pre, suf);
    ExpandAtStar(EscapeDots(pre), EscapeDots(suf));
  }

  lemma ParseCompiledTextWithStar(pre: string, suf: string)
    requires forall i :: 0 <= i < |pre| ==> IsPlain(pre[i]) || pre[i] == '.'
    requires forall i :: 0 <= i < |suf| ==> IsPlain(suf[i]) || suf[i] == '.'
    ensures ParseBody(EscapeDots(pre) + ".*" + EscapeDots(suf)) == Some(Lits(pre) + ([AnyRun] + Lits(suf)))
  {
    var ePre, eSuf := EscapeDots(pre), EscapeDots(suf);
    ParseSuffixAfterRun(suf);
    assert ePre + ".*" + eSuf == ePre + (".*" + eSuf);
    ParseEscaped(pre, ".*" + eSuf);
    PrependTwice(Lits(pre), [AnyRun], Some(Lits(suf)));
    assert Lits(pre) + [AnyRun] + Lits(suf) == Lits(pre) + ([AnyRun] + Lits(suf));
  }

  lemma ParseSuffixAfterRun(suf: string)
    requires forall i :: 0 <= i < |suf| ==> IsPlain(suf[i]) || suf[i] == '.'
    ensures ParseBody(".*" + EscapeDots(suf)) == Some([AnyRun] + Lits(suf))
  {
    var eSuf := EscapeDots(suf);
    ParseRun(eSuf);
    ParseEscaped(suf, []);
    assert eSuf + [] == eSuf;
    assert ParseBody([]) == Some([]);
    assert Lits(suf) + [] == Lits(suf);
    assert ParseBody(eSuf) == Some(Lits(suf));
  }

  lemma MatchLitStep(c: char, ts: seq<Token>, s: string)
    ensures MatchTokens([Lit(c)] + ts, s) <==> |s| > 0 && s[0] == c && MatchTokens(ts, s[1..])
  {
    assert ([Lit(c)] + ts)[0] == Lit(c);
    assert ([Lit(c)] + ts)[1..] == ts;
  }

  /** Literal tokens in front consume exactly their characters. */
  lemma {:induction false} MatchLits(x: string, rest: seq<Token>, s: string)
    ensures MatchTokens(Lits(x) + rest, s)
        <==> |s| >= |x| && s[..|x|] == x && MatchTokens(rest, s[|x|..])
  {
    if x == [] {
      assert Lits(x) + rest == rest;
      assert s[..0] == x && s[0..] == s;
    } else {
      var tail := Lits(x[1..]) + rest;
      assert Lits(x) + rest == [Lit(x[0])] + tail;
      MatchLitStep(x[0], tail, s);
      if |s| == 0 || s[0] != x[0] {
        assert |s| >= |x| ==> s[..|x|][0] == s[0];
      } else {
        var t := s[1..];
        MatchLits(x[1..], rest, t);
        if |s| >= |x| {
          LitsHead(s, x);
          assert s[|x|..] == t[|x| - 1..];
        }
      }
    }
  }

  lemma LitsHead(s: string, x: string)
    requires 0 < |x| <= |s| && s[0] == x[0]
    ensures s[..|x|] == x <==> s[1..][..|x| - 1] == x[1..]
  {
    assert s[..|x|] == [s[0]] + s[1..][..|x| - 1];
    assert x == [x[0]] + x[1..];
  }

  /** A string matches literal tokens alone exactly when it spells them. */
  lemma MatchLitsOnly(x: string, s: string)
    ensures MatchTokens(Lits(x), s) <==> s == x
  {
    MatchLits(x, [], s);
    assert Lits(x) + [] == Lits(x);
  }

  /** `.*` followed by literals matches the strings that end with those literals. */
  lemma {:induction false} MatchRunThenLits(suf: string, s: string)
    ensures MatchTokens([AnyRun] + Lits(suf), s)
        <==> |s| >= |suf| && s[|s| - |suf|..] == suf && NoLineTerminator(s[..|s| - |suf|])
    decreases |s|
  {
    var ts := [AnyRun] + Lits(suf);
    assert ts[1..] == Lits(suf);
    MatchLitsOnly(suf, s);
    if |s| > 0 {
      MatchRunThenLits(suf, s[1..]);
      var t := s[1..];
      if |s| > |suf| {
        assert s[|s| - |suf|..] == t[|t| - |suf|..];
        assert s[..|s| - |suf|][1..] == t[..|t| - |suf|];
        assert NoLineTerminator(s[..|s| - |suf|])
           <==> !IsLineTerminator(s[0]) && NoLineTerminator(t[..|t| - |suf|]);
      } else if |s| == |suf| {
        assert s[..0] == [];
        assert s[0..] == s;
      }
    } else {
      assert s[..0] == [];
    }
  }

  /**
   * The compiled RegExp of a covered filter accepts exactly the names the glob reading of the
   * filter describes.
   */
  lemma CompiledFilterMeaning(p: string, s: string)
    requires ValidPattern(p)
    ensures Parse(CompileRouteFilter(p)).Some?
    ensures Test(CompileRouteFilter(p), s) <==> GlobMatch(p, s)
  {
    GlobTokensMeaning(p, s);
  }

  /** The tokens of a filter match exactly what its glob reading says. */
  lemma GlobTokensMeaning(p: string, s: string)
    ensures MatchTokens(GlobTokens(p), s) <==> GlobMatch(p, s)
  {
    if '*' !in p {
      MatchLitsOnly(p, s);
    } else {
      var k := IndexOf(p, '*');
      var pre, suf := p[..k], p[k + 1..];
      StarTokensMeaning(pre, suf, s);
    }
  }

  /** Literals, `.*`, literals: a fixed prefix, a fixed suffix and no line terminator between. */
  lemma StarTokensMeaning(pre: string, suf: string, s: string)
    ensures MatchTokens(Lits(pre) + ([AnyRun] + Lits(suf)), s)
        <==> && |s| >= |pre| + |suf|
             && s[..|pre|] == pre
             && s[|s| - |suf|..] == suf
             && NoLineTerminator(s[|pre|..|s| - |suf|])
  {
    MatchLits(pre, [AnyRun] + Lits(suf), s);
    if |s| >= |pre| + |suf| {
      RunThenSuffix(suf, s, |pre|);
    } else if |s| >= |pre| {
      MatchRunThenLits(suf, s[|pre|..]);
    }
  }

  /** The `.*` and suffix part, matched against what follows the first `a` characters. */
  lemma RunThenSuffix(suf: string, s: string, a: nat)
    requires a + |suf| <= |s|
    ensures MatchTokens([AnyRun] + Lits(suf), s[a..])
        <==> s[|s| - |suf|..] == suf && NoLineTerminator(s[a..|s| - |suf|])
  {
    MatchRunThenLits(suf, s[a..]);
    DropThenSplit(s, a, |suf|);
  }

  /** Dropping `a` characters, then splitting off the last `b`, is slicing `s` directly. */
  lemma DropThenSplit(s: string, a: nat, b: nat)
    requires a + b <= |s|
    ensures var t := s[a..]; t[|t| - b..] == s[|s| - b..] && t[..|t| - b] == s[a..|s| - b]
  {
  }

  /** `some` over compiled filters is "some filter's glob reading matches". */
  lemma AnyTestMeaning(ps: seq<string>, name: string)
    requires AllValid(ps)
    ensures forall i :: 0 <= i < |ps| ==> Parse(CompileRouteFilters(ps)[i]).Some?
    ensures AnyTest(CompileRouteFilters(ps), name)
        <==> exists i :: 0 <= i < |ps| && GlobMatch(ps[i], name)
  {
    forall i | 0 <= i < |ps|
      ensures Parse(CompileRouteFilters(ps)[i]).Some?
      ensures Test(CompileRouteFilters(ps)[i], name) <==> GlobMatch(ps[i], name)
    {
      CompiledFilterMeaning(ps[i], name);
    }
  }

  /** A filter that ends in its only `*` matches the names that start with the text before it. */
  lemma TrailingStarMeaning(pre: string, s: string)
    requires '*' !in pre
    ensures GlobMatch(pre + "*", s) <==> |s| >= |pre| && s[..|pre|] == pre && NoLineTerminator(s[|pre|..])
  {
    var p := pre + "*";
    assert p[|pre|] == '*';
    var k := IndexOf(p, '*');
    assert forall j :: 0 <= j < |pre| ==> p[j] == pre[j];
    assert k == |pre|;
    assert p[..|pre|] == pre && p[|pre| + 1..] == [];
    assert s[|s| - 0..] == [];
    if |s| >= |pre| {
      assert s[|pre|..|s| - 0] == s[|pre|..];
    }
  }

  /** `admin.*` matches `admin.x`. */
  lemma AdminWildcardMatchesChild()
    ensures GlobMatch("admin.*", "admin.x")
  {
    AdminWildcardText();
    TrailingStarMeaning("admin.", "admin.x");
    ChildNameSplit();
  }

  lemma AdminWildcardText()
    ensures "admin." + "*" == "admin.*"
  {
  }

  lemma ChildNameSplit()
    ensures "admin.x"[..6] == "admin."
    ensures NoLineTerminator("admin.x"[6..])
  {
    assert "admin.x"[6..] == "x";
    assert "x"[1..] == [];
  }

  /** `admin.*` does not match `administrator`, which only starts with `admin`. */
  lemma AdminWildcardRejectsLongerWord()
    ensures !GlobMatch("admin.*", "administrator")
  {
    AdminWildcardText();
    TrailingStarMeaning("admin.", "administrator");
    assert "administrator"[5] != "admin."[5];
  }

  /** `admin.*` does not match `admin`, which lacks the `.`. */
  lemma AdminWildcardRejectsBareName()
    ensures !GlobMatch("admin.*", "admin")
  {
    AdminWildcardText();
    TrailingStarMeaning("admin.", "admin");
  }

}
