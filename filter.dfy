/** Which mods are client-only and which are kept through a clean-up: the
    installer's `_is_client_only` and `_is_preserved`. Both compare names
    case-insensitively by substring, against the pattern lists of the
    configuration (`client_only_mods`, `preserved_mods`). */
module ContentFilter {

  /** `str.lower()` on one character; only ASCII letters are mapped. */
  function LowerChar(c: char): char {
    if 'A' <= c <= 'Z' then (c as int + 32) as char else c
  }

  /** `str.lower()`: no capital letter is left, and each character is kept
      or is a capital moved to its lower-case letter. */
  function Lower(s: string): (r: string)
    ensures |r| == |s|
    ensures forall i | 0 <= i < |r| :: !('A' <= r[i] <= 'Z')
    ensures forall i | 0 <= i < |s| :: r[i] == s[i] || ('A' <= s[i] <= 'Z' && r[i] as int == s[i] as int + 32)
  {
    seq(|s|, i requires 0 <= i < |s| => LowerChar(s[i]))
  }

  predicate OccursAt(hay: string, needle: string, i: int) {
    0 <= i && i + |needle| <= |hay| && hay[i..i + |needle|] == needle
  }

  /** Python's `needle in hay` on strings. */
  predicate Contains(hay: string, needle: string) {
    exists i | 0 <= i <= |hay| - |needle| :: OccursAt(hay, needle, i)
  }

  /** `pattern.lower() in filename.lower()` */
  predicate PatternMatches(name: string, pattern: string) {
    Contains(Lower(name), Lower(pattern))
  }

  /** The early-return loop over a pattern list: true at the first pattern
      that matches, false when the list runs out. */
  function MatchesAny(name: string, patterns: seq<string>): (r: bool)
    ensures r <==> exists k :: 0 <= k < |patterns| && PatternMatches(name, patterns[k])
  {
    if patterns == [] then false
    else if PatternMatches(name, patterns[0]) then true
    else
      var r := MatchesAny(name, patterns[1..]);
      assert r ==> exists k :: 0 <= k < |patterns| && PatternMatches(name, patterns[k]) by {
        if r {
          var k :| 0 <= k < |patterns[1..]| && PatternMatches(name, patterns[1..][k]);
          assert patterns[k + 1] == patterns[1..][k];
        }
      }
      assert (exists k :: 0 <= k < |patterns| && PatternMatches(name, patterns[k])) ==> r by {
        if exists k :: 0 <= k < |patterns| && PatternMatches(name, patterns[k]) {
          var k :| 0 <= k < |patterns| && PatternMatches(name, patterns[k]);
          assert k != 0;
          assert patterns[1..][k - 1] == patterns[k];
        }
      }
      r
  }

  /** The manifest marks the mod as unsupported on servers. */
  predicate ServerUnsupported(env: map<string, string>) {
    "server" in env && env["server"] == "unsupported"
  }

  /** `_is_client_only(filename, env)`. An override jar has no manifest entry,
      so its `env` is the empty map. */
  function IsClientOnly(name: string, env: map<string, string>, clientOnly: seq<string>): (r: bool)
    ensures r <==> ServerUnsupported(env)
                   || exists k :: 0 <= k < |clientOnly| && PatternMatches(name, clientOnly[k])
  {
    ServerUnsupported(env) || MatchesAny(name, clientOnly)
  }

  /** `_is_preserved(filename)`. */
  function IsPreserved(name: string, preserved: seq<string>): (r: bool)
    ensures r <==> exists k :: 0 <= k < |preserved| && PatternMatches(name, preserved[k])
  {
    MatchesAny(name, preserved)
  }

  /** With no patterns nothing is preserved, and without a manifest tag nothing
      is client-only. */
  lemma NoPatternsNoMatch(name: string, env: map<string, string>)
    ensures !IsPreserved(name, [])
    ensures !IsClientOnly(name, env, []) <==> !ServerUnsupported(env)
  {
  }

  /** An empty pattern occurs in every name, so it preserves every mod (and
      marks every mod client-only). */
  lemma EmptyPatternMatchesAll(name: string, patterns: seq<string>)
    requires "" in patterns
    ensures IsPreserved(name, patterns)
    ensures IsClientOnly(name, map[], patterns)
  {
    var k :| 0 <= k < |patterns| && patterns[k] == "";
    assert OccursAt(Lower(name), Lower(patterns[k]), 0);
  }

  lemma LowerIdempotent(s: string)
    ensures Lower(Lower(s)) == Lower(s)
  {
    assert forall i | 0 <= i < |s| :: Lower(Lower(s))[i] == Lower(s)[i];
  }

  /** The decision ignores the case of the file name. */
  lemma {:induction false} MatchIgnoresCase(name: string, patterns: seq<string>)
    ensures MatchesAny(Lower(name), patterns) == MatchesAny(name, patterns)
  {
    LowerIdempotent(name);
    forall k | 0 <= k < |patterns|
      ensures PatternMatches(Lower(name), patterns[k]) == PatternMatches(name, patterns[k])
    {
    }
  }

  /** A name that a pattern matches is still matched after more text is put
      around it: matching is by substring, not by whole name. */
  lemma MatchSurvivesAffixes(name: string, pre: string, post: string, patterns: seq<string>)
    requires MatchesAny(name, patterns)
    ensures MatchesAny(pre + name + post, patterns)
  {
    var k :| 0 <= k < |patterns| && PatternMatches(name, patterns[k]);
    var p := Lower(patterns[k]);
    var ln := Lower(name);
    var i :| 0 <= i <= |ln| - |p| && OccursAt(ln, p, i);
    assert 0 <= i && i + |p| <= |ln| && ln[i..i + |p|] == p;
    var big := pre + name + post;
    assert Lower(big) == Lower(pre) + Lower(name) + Lower(post) by {
      assert forall j | 0 <= j < |big| :: Lower(big)[j] == (Lower(pre) + Lower(name) + Lower(post))[j];
    }
    assert Lower(big)[|pre| + i..|pre| + i + |p|] == ln[i..i + |p|];
    assert OccursAt(Lower(big), p, |pre| + i);
  }
}
