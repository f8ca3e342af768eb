/** SQLite's built-in LIKE operator with no ESCAPE clause: '%' matches any
    run of characters, '_' matches exactly one, and letters compare
    case-insensitively for ASCII only (the default without ICU). */
module SqlLike {

  /** Folds ASCII upper case to lower case; every other character is kept. */
  function FoldAscii(c: char): (r: char)
    ensures 'A' <= c <= 'Z' ==> 'a' <= r <= 'z'
    ensures !('A' <= c <= 'Z') ==> r == c
  {
    if 'A' <= c <= 'Z' then (c as int + 32) as char else c
  }

  predicate SameLetter(a: char, b: char) { FoldAscii(a) == FoldAscii(b) }

  /** s LIKE p. */
  predicate Like(p: string, s: string)
    decreases |p| + |s|
  {
    if p == [] then s == []
    else if p[0] == '%' then Like(p[1..], s) || (s != [] && Like(p, s[1..]))
    else s != [] && (p[0] == '_' || SameLetter(p[0], s[0])) && Like(p[1..], s[1..])
  }

  /** A search term in which neither wildcard occurs. */
  predicate Literal(t: string)
  {
    forall i :: 0 <= i < |t| ==> t[i] != '%' && t[i] != '_'
  }

  /** t occurs in s at position i, ignoring ASCII case. */
  predicate MatchesAt(t: string, s: string, i: int)
  {
    0 <= i && i + |t| <= |s| && forall k :: 0 <= k < |t| ==> SameLetter(t[k], s[i + k])
  }

  /** t occurs somewhere in s, ignoring ASCII case. */
  ghost predicate Occurs(t: string, s: string)
  {
    exists i :: MatchesAt(t, s, i)
  }

  /** The pattern '%' matches every string. */
  lemma {:induction false} PercentMatchesAll(s: string)
    ensures Like("%", s)
  {
    if s != [] { PercentMatchesAll(s[1..]); }
  }

  /** A literal prefix of the pattern must match a prefix of the text. */
  lemma {:induction false} LikeLiteralPrefix(t: string, rest: string, s: string)
    requires Literal(t)
    ensures Like(t + rest, s) <==> MatchesAt(t, s, 0) && Like(rest, s[|t|..])
  {
    if t != [] {
      var p := t + rest;
      assert p[0] == t[0] && p[1..] == t[1..] + rest;
      if s != [] {
        LikeLiteralPrefix(t[1..], rest, s[1..]);
        if |t| <= |s| {
          assert s[1..][|t| - 1..] == s[|t|..];
        }
        if MatchesAt(t, s, 0) {
          assert MatchesAt(t[1..], s[1..], 0) by {
            forall k | 0 <= k < |t| - 1 ensures SameLetter(t[1..][k], s[1..][k]) {
              assert SameLetter(t[k + 1], s[k + 1]);
            }
          }
        }
        if SameLetter(t[0], s[0]) && MatchesAt(t[1..], s[1..], 0) {
          forall k | 0 <= k < |t| ensures SameLetter(t[k], s[k]) {
            if k > 0 { assert SameLetter(t[1..][k - 1], s[1..][k - 1]); }
          }
        }
      }
    } else {
      assert t + rest == rest;
    }
  }

  /** A leading '%' lets the rest of the pattern match any suffix. */
  lemma {:induction false} LikeLeadingPercent(q: string, s: string)
    ensures Like("%" + q, s) <==> exists i :: 0 <= i <= |s| && Like(q, s[i..])
  {
    var p := "%" + q;
    assert p[0] == '%' && p[1..] == q;
    assert s[0..] == s;
    if s != [] {
      LikeLeadingPercent(q, s[1..]);
      if Like(p, s[1..]) {
        var i :| 0 <= i <= |s[1..]| && Like(q, s[1..][i..]);
        assert s[1..][i..] == s[i + 1..];
      }
      if exists i :: 0 <= i <= |s| && Like(q, s[i..]) {
        var i :| 0 <= i <= |s| && Like(q, s[i..]);
        if i > 0 {
          assert s[1..][i - 1..] == s[i..];
        }
      }
    }
  }

  /** search_requests' pattern "%term%" for a term without wildcards
      matches exactly the texts containing the term, ignoring ASCII case. */
  lemma SubstringSearch(t: string, s: string)
    requires Literal(t)
    ensures Like("%" + t + "%", s) <==> Occurs(t, s)
  {
    assert "%" + t + "%" == "%" + (t + "%");
    LikeLeadingPercent(t + "%", s);
    if Like("%" + t + "%", s) {
      var i :| 0 <= i <= |s| && Like(t + "%", s[i..]);
      LikeLiteralPrefix(t, "%", s[i..]);
      assert MatchesAt(t, s, i) by {
        forall k | 0 <= k < |t| ensures SameLetter(t[k], s[i + k]) {
          assert s[i..][k] == s[i + k];
        }
      }
    }
    if Occurs(t, s) {
      var i :| MatchesAt(t, s, i);
      LikeLiteralPrefix(t, "%", s[i..]);
      PercentMatchesAll(s[i..][|t|..]);
      assert MatchesAt(t, s[i..], 0) by {
        forall k | 0 <= k < |t| ensures SameLetter(t[k], s[i..][k]) {
          assert s[i..][k] == s[i + k];
        }
      }
    }
  }

  /** The term '_' matches any non-empty text: the wildcard is not escaped. */
  lemma UnderscoreMatchesAnyNonEmpty(s: string)
    requires s != []
    ensures Like("%_%", s)
  {
    assert "%_%" == "%" + "_%";
    LikeLeadingPercent("_%", s);
    assert ("_%")[1..] == "%";
    PercentMatchesAll(s[1..]);
    assert Like("_%", s[0..]) by { assert s[0..] == s; }
  }
}
