/**
 * The few JavaScript string operations the route compiler relies on, on `string` (= `seq<char>`):
 * `startsWith`, `replace` with a string pattern, `replaceAll` with a one-character pattern, and
 * `Array.prototype.join`.
 */
module JsStrings {

  /** `pat` occurs in `s` starting at index `i`. */
  predicate OccursAt(s: string, pat: string, i: int)
  {
    0 <= i && i + |pat| <= |s| && s[i..i + |pat|] == pat
  }

  /** `s.startsWith(pat)` */
  predicate StartsWith(s: string, pat: string)
  {
    OccursAt(s, pat, 0)
  }

  /**
   * `s.replace(pat, rep)` with a string (not a RegExp) `pat`: only the first occurrence of `pat`
   * is replaced; when `pat` does not occur, `s` comes back unchanged. `rep` is taken literally
   * (the `$` substitution patterns of JavaScript are not modelled).
   */
  function ReplaceFirst(s: string, pat: string, rep: string): string
    decreases |s|
  {
    if |s| < |pat| then s
    else if s[..|pat|] == pat then rep + s[|pat|..]
    else [s[0]] + ReplaceFirst(s[1..], pat, rep)
  }

  /** `s.replaceAll(c, rep)` for a one-character pattern `c`: every `c` becomes `rep`. */
  function ReplaceAll(s: string, c: char, rep: string): string
  {
    if s == [] then []
    else (if s[0] == c then rep else [s[0]]) + ReplaceAll(s[1..], c, rep)
  }

  /** `xs.join(sep)` */
  function Join(xs: seq<string>, sep: string): string
  {
    if xs == [] then ""
    else if |xs| == 1 then xs[0]
    else xs[0] + sep + Join(xs[1..], sep)
  }

  /** The shifted view of an occurrence: `pat` occurs at `j` in `s[1..]` iff it occurs at `j + 1` in `s`. */
  lemma OccursAtTail(s: string, pat: string, j: int)
    requires |s| > 0 && 0 <= j
    ensures OccursAt(s[1..], pat, j) <==> OccursAt(s, pat, j + 1)
  {
    if j + |pat| <= |s| - 1 {
      assert s[1..][j..j + |pat|] == s[j + 1..j + 1 + |pat|];
    }
  }

  /** Where `pat` does not occur at the front, `replace` keeps the first character and moves on. */
  lemma ReplaceFirstPast(s: string, pat: string, rep: string)
    requires |s| >= |pat| && !OccursAt(s, pat, 0)
    ensures |s| > 0 && ReplaceFirst(s, pat, rep) == [s[0]] + ReplaceFirst(s[1..], pat, rep)
  {
  }

  /** No occurrence before `i` in `s` means none before `i - 1` in `s[1..]`. */
  lemma NoEarlierInTail(s: string, pat: string, i: int)
    requires |s| > 0 && 1 <= i
    requires forall j :: 0 <= j < i ==> !OccursAt(s, pat, j)
    ensures forall j :: 0 <= j < i - 1 ==> !OccursAt(s[1..], pat, j)
  {
    forall j | 0 <= j < i - 1
      ensures !OccursAt(s[1..], pat, j)
    {
      OccursAtTail(s, pat, j);
    }
  }

  /**
   * `replace` rewrites exactly the FIRST occurrence of its pattern: when `pat` occurs at `i` and
   * nowhere before, the result is `s` with that one occurrence replaced and everything after it,
   * including later occurrences, left alone.
   */
  lemma {:induction false} ReplaceFirstAtFirstOccurrence(s: string, pat: string, rep: string, i: int)
    requires OccursAt(s, pat, i)
    requires forall j :: 0 <= j < i ==> !OccursAt(s, pat, j)
    ensures ReplaceFirst(s, pat, rep) == s[..i] + rep + s[i + |pat|..]
    decreases i
  {
    if i == 0 {
      assert s[..|pat|] == pat;
    } else {
      ReplaceFirstPast(s, pat, rep);
      NoEarlierInTail(s, pat, i);
      OccursAtTail(s, pat, i - 1);
      var t := s[1..];
      ReplaceFirstAtFirstOccurrence(t, pat, rep, i - 1);
      assert s[..i] == [s[0]] + t[..i - 1];
      assert s[i + |pat|..] == t[i - 1 + |pat|..];
    }
  }

  /** `replace` leaves a string in which its pattern does not occur unchanged. */
  lemma {:induction false} ReplaceFirstAbsent(s: string, pat: string, rep: string)
    requires forall j :: !OccursAt(s, pat, j)
    ensures ReplaceFirst(s, pat, rep) == s
    decreases |s|
  {
    if |s| >= |pat| {
      assert !OccursAt(s, pat, 0);
      forall j
        ensures !OccursAt(s[1..], pat, j)
      {
        if 0 <= j {
          OccursAtTail(s, pat, j);
        }
      }
      ReplaceFirstAbsent(s[1..], pat, rep);
    }
  }

  /** `replaceAll` introduces no character that is neither in its input nor in its replacement. */
  lemma {:induction false} ReplaceAllNoNewChar(s: string, c: char, rep: string, d: char)
    requires d !in s && d !in rep
    ensures d !in ReplaceAll(s, c, rep)
  {
    if s != [] {
      assert d !in s[1..];
      ReplaceAllNoNewChar(s[1..], c, rep, d);
    }
  }

  /** `replaceAll` distributes over concatenation. */
  lemma {:induction false} ReplaceAllConcat(a: string, b: string, c: char, rep: string)
    ensures ReplaceAll(a + b, c, rep) == ReplaceAll(a, c, rep) + ReplaceAll(b, c, rep)
  {
    if a == [] {
      assert a + b == b;
    } else {
      assert (a + b)[0] == a[0];
      assert (a + b)[1..] == a[1..] + b;
      ReplaceAllConcat(a[1..], b, c, rep);
      var head := if a[0] == c then rep else [a[0]];
      assert ReplaceAll(a + b, c, rep) == head + ReplaceAll(a[1..] + b, c, rep);
      assert ReplaceAll(a, c, rep) == head + ReplaceAll(a[1..], c, rep);
    }
  }

}
