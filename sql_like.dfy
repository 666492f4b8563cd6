/**
 * The SQL `LIKE` operator the repositories use for prefix and substring
 * searches: `%` matches any run of characters, `_` exactly one, and every
 * other character itself (case-sensitively).
 */
module SqlLike {

  import JsStrings

  predicate IsWildcard(c: char) { c == '%' || c == '_' || c == '\\' }

  predicate NoWildcards(t: string) {
    forall i :: 0 <= i < |t| ==> !IsWildcard(t[i])
  }

  /** `s LIKE p`. */
  predicate Like(s: string, p: string)
    decreases |s| + |p|
  {
    if p == [] then s == []
    else if p[0] == '%' then Like(s, p[1..]) || (s != [] && Like(s[1..], p))
    else if p[0] == '_' then s != [] && Like(s[1..], p[1..])
    else s != [] && s[0] == p[0] && Like(s[1..], p[1..])
  }

  /** A trailing `%` matches every suffix. */
  lemma {:induction false} LikeAnything(s: string)
    ensures Like(s, "%")
  {
    if s != [] {
      LikeAnything(s[1..]);
    }
  }

  /** A literal prefix of the pattern must be a literal prefix of the string. */
  lemma {:induction false} LikeLiteralPrefix(s: string, t: string, rest: string)
    requires NoWildcards(t)
    ensures Like(s, t + rest) <==> JsStrings.StartsWith(s, t) && Like(s[|t|..], rest)
  {
    if t == [] {
      assert t + rest == rest;
    } else {
      assert (t + rest)[0] == t[0];
      assert (t + rest)[1..] == t[1..] + rest;
      if s != [] {
        LikeLiteralPrefix(s[1..], t[1..], rest);
        if JsStrings.StartsWith(s, t) {
          assert s[1..][..|t| - 1] == t[1..];
        }
        if s[0] == t[0] && JsStrings.StartsWith(s[1..], t[1..]) {
          assert s[..|t|] == [s[0]] + s[1..][..|t| - 1];
        }
        if |t| <= |s| {
          assert s[1..][|t| - 1..] == s[|t|..];
        }
      }
    }
  }

  /** `s LIKE 'prefix%'` holds exactly when `s` starts with the prefix. */
  lemma LikePrefix(s: string, prefix: string)
    requires NoWildcards(prefix)
    ensures Like(s, prefix + "%") <==> JsStrings.StartsWith(s, prefix)
  {
    LikeLiteralPrefix(s, prefix, "%");
    if |prefix| <= |s| {
      LikeAnything(s[|prefix|..]);
    }
  }

  /** A leading `%` tries every suffix. */
  lemma {:induction false} LikeLeadingPercent(s: string, p: string)
    ensures Like(s, "%" + p) <==> exists k :: 0 <= k <= |s| && Like(s[k..], p)
  {
    var q := "%" + p;
    assert q[0] == '%' && q[1..] == p;
    assert s[0..] == s;
    if s != [] {
      LikeLeadingPercent(s[1..], p);
      if Like(s, q) {
        if !Like(s, p) {
          assert Like(s[1..], q);
          var k :| 0 <= k <= |s[1..]| && Like(s[1..][k..], p);
          assert s[1..][k..] == s[k + 1..];
        }
      } else {
        forall k | 0 <= k <= |s|
          ensures !Like(s[k..], p)
        {
          if k > 0 {
            assert s[1..][k - 1..] == s[k..];
          }
        }
      }
    }
  }

  /** `s LIKE '%term%'` holds exactly when `term` occurs in `s`. */
  lemma LikeContains(s: string, term: string)
    requires NoWildcards(term)
    ensures Like(s, "%" + term + "%") <==> JsStrings.Contains(s, term)
  {
    assert "%" + term + "%" == "%" + (term + "%");
    LikeLeadingPercent(s, term + "%");
    if JsStrings.Contains(s, term) {
      OccurrenceMatches(s, term, JsStrings.IndexOf(s, term));
    }
    if exists k :: 0 <= k <= |s| && Like(s[k..], term + "%") {
      var k :| 0 <= k <= |s| && Like(s[k..], term + "%");
      MatchOccurs(s, term, k);
    }
  }

  lemma OccurrenceMatches(s: string, term: string, k: nat)
    requires NoWildcards(term) && JsStrings.OccursAt(s, term, k)
    ensures Like(s[k..], term + "%")
  {
    LikePrefix(s[k..], term);
    assert s[k..][..|term|] == s[k..k + |term|];
  }

  lemma MatchOccurs(s: string, term: string, k: nat)
    requires NoWildcards(term) && k <= |s| && Like(s[k..], term + "%")
    ensures JsStrings.OccursAt(s, term, k) && JsStrings.Contains(s, term)
  {
    LikePrefix(s[k..], term);
    assert s[k..][..|term|] == s[k..k + |term|];
    assert JsStrings.OccursAt(s, term, k);
    assert JsStrings.IndexOf(s, term) != -1;
  }
}
