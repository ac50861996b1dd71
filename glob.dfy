/** The glob patterns of the Redis KEYS command, restricted to the wildcards
    '*' (any run of characters) and '?' (any one character); every other
    character matches itself. */
module Glob {
  import opened Text

  /** KEYS matching: the whole of `s` against the whole pattern. A pattern
      without wildcards matches only itself; one without '*' matches only
      strings of its own length. */
  function Match(p: string, s: string): (r: bool)
    ensures IsLiteral(p) ==> (r <==> p == s)
    ensures '*' !in p && r ==> |s| == |p|
    decreases |p| + |s|
  {
    if p == [] then s == []
    else if p[0] == '*' then Match(p[1..], s) || (s != [] && Match(p, s[1..]))
    else s != [] && (p[0] == '?' || p[0] == s[0]) && Match(p[1..], s[1..])
  }

  predicate IsLiteral(p: string) {
    '*' !in p && '?' !in p
  }

  lemma {:induction false} StarMatchesAll(s: string)
    ensures Match("*", s)
  {
    if s != [] {
      StarMatchesAll(s[1..]);
    }
  }

  /** A literal followed by '*' matches exactly the strings it starts. */
  lemma {:induction false} LiteralThenStar(p: string, s: string)
    requires IsLiteral(p)
    ensures Match(p + "*", s) <==> p <= s
  {
    if p == [] {
      assert p + "*" == "*";
      StarMatchesAll(s);
    } else {
      assert (p + "*")[1..] == p[1..] + "*";
      assert p[0] in p;
      if s != [] {
        LiteralThenStar(p[1..], s[1..]);
        if p[0] == s[0] && |p| <= |s| {
          assert p <= s <==> p[1..] <= s[1..];
        }
      }
    }
  }

  /** A leading '*' lets the rest of the pattern match any suffix. */
  lemma {:induction false} StarThen(q: string, s: string)
    ensures Match("*" + q, s) <==> exists i :: 0 <= i <= |s| && Match(q, s[i..])
  {
    assert ("*" + q)[1..] == q;
    if s == [] {
      assert s[0..] == s;
    } else {
      StarThen(q, s[1..]);
      assert s[0..] == s;
      if exists i :: 0 <= i <= |s| && Match(q, s[i..]) {
        var i :| 0 <= i <= |s| && Match(q, s[i..]);
        if i > 0 {
          assert s[1..][i - 1..] == s[i..];
        }
      }
      if exists j :: 0 <= j <= |s[1..]| && Match(q, s[1..][j..]) {
        var j :| 0 <= j <= |s[1..]| && Match(q, s[1..][j..]);
        assert s[1..][j..] == s[j + 1..];
      }
    }
  }

  /** Wrapping a literal in '*' on both sides turns KEYS into a substring
      search: the "fuzzy" match the key browser offers. */
  lemma WrappedLiteralIsSubstringSearch(p: string, s: string)
    requires IsLiteral(p)
    ensures Match("*" + p + "*", s) <==> IsSubstring(p, s)
  {
    assert "*" + p + "*" == "*" + (p + "*");
    StarThen(p + "*", s);
    forall i | 0 <= i <= |s|
      ensures Match(p + "*", s[i..]) <==> p <= s[i..]
    {
      LiteralThenStar(p, s[i..]);
    }
  }
}
