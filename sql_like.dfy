/**
  SQLite's `LIKE` operator as `get_stalls` uses it for the dietary filter
  (`sa.dietary_requirements LIKE ?` with the argument `'%' + dietary + '%'`).
  In a pattern `%` matches any run of characters, `_` any one character, and
  every other character matches itself ignoring ASCII case; there is no escape
  character. `LikeSubstring` shows that for a search word without `%` or `_`
  the filter is a case-insensitive substring test.
*/
module SqlLike {

  /** SQLite folds ASCII letters only. */
  function Lower(c: char): char {
    if 'A' <= c <= 'Z' then (c as int - 'A' as int + 'a' as int) as char else c
  }

  /** `s LIKE p` */
  function Like(s: string, p: string): bool
    decreases |s| + |p|
  {
    if p == [] then s == []
    else if p[0] == '%' then Like(s, p[1..]) || (s != [] && Like(s[1..], p))
    else if p[0] == '_' then s != [] && Like(s[1..], p[1..])
    else s != [] && Lower(s[0]) == Lower(p[0]) && Like(s[1..], p[1..])
  }

  /** `p` has no wildcard: every character of it stands for itself. */
  predicate Literal(p: string) {
    forall k :: 0 <= k < |p| ==> p[k] != '%' && p[k] != '_'
  }

  /** `a` and `b` are the same text up to ASCII case. */
  predicate SameFolded(a: string, b: string) {
    |a| == |b| && forall k :: 0 <= k < |a| ==> Lower(a[k]) == Lower(b[k])
  }

  /** `d` occurs in `s` at position `i`, ignoring ASCII case. */
  predicate OccursAt(s: string, d: string, i: int) {
    0 <= i && i + |d| <= |s| && SameFolded(s[i..i + |d|], d)
  }

  /** `d` occurs in `s`, ignoring ASCII case. */
  predicate ContainsFolded(s: string, d: string) {
    exists i :: 0 <= i <= |s| && OccursAt(s, d, i)
  }

  /** A lone `%` matches every text, the empty one included. */
  lemma {:induction false} LikeAnything(s: string)
    ensures Like(s, "%")
    decreases |s|
  {
    assert "%"[1..] == [];
    if s != [] {
      LikeAnything(s[1..]);
    }
  }

  /** A leading `%` lets the rest of the pattern match any suffix. */
  lemma {:induction false} LikeLeadingPercent(s: string, q: string)
    ensures Like(s, "%" + q) <==> exists i :: 0 <= i <= |s| && Like(s[i..], q)
    decreases |s|
  {
    var p := "%" + q;
    assert p[0] == '%' && p[1..] == q;
    assert s[0..] == s;
    if s != [] {
      LikeLeadingPercent(s[1..], q);
      if Like(s[1..], p) {
        var i :| 0 <= i <= |s[1..]| && Like(s[1..][i..], q);
        assert s[1..][i..] == s[i + 1..];
      }
      if exists i :: 0 <= i <= |s| && Like(s[i..], q) {
        var i :| 0 <= i <= |s| && Like(s[i..], q);
        if i > 0 {
          assert s[1..][i - 1..] == s[i..];
        }
      }
    }
  }

  /** A literal prefix of the pattern must match the text's prefix of the same length. */
  lemma {:induction false} LikeLiteralPrefix(s: string, d: string, rest: string)
    requires Literal(d)
    ensures Like(s, d + rest) <==> |d| <= |s| && SameFolded(s[..|d|], d) && Like(s[|d|..], rest)
    decreases |d|
  {
    if d == [] {
      assert d + rest == rest && s[0..] == s;
    } else if s != [] {
      var p := d + rest;
      assert p[0] == d[0] && p[1..] == d[1..] + rest;
      LikeLiteralPrefix(s[1..], d[1..], rest);
      if |d| <= |s| {
        assert s[1..][|d| - 1..] == s[|d|..];
        assert SameFolded(s[..|d|], d) <==> Lower(s[0]) == Lower(d[0]) && SameFolded(s[1..][..|d| - 1], d[1..]) by {
          assert forall k :: 0 < k < |d| ==> s[..|d|][k] == s[1..][..|d| - 1][k - 1] && d[k] == d[1..][k - 1];
        }
      }
    }
  }

  /** The dietary filter: `s LIKE '%' + d + '%'` holds exactly when `d` occurs in `s` up to ASCII case. */
  lemma LikeSubstring(s: string, d: string)
    requires Literal(d)
    ensures Like(s, "%" + d + "%") <==> ContainsFolded(s, d)
  {
    LikeLeadingPercent(s, d + "%");
    assert "%" + d + "%" == "%" + (d + "%");
    forall i | 0 <= i <= |s|
      ensures Like(s[i..], d + "%") <==> OccursAt(s, d, i)
    {
      LikeLiteralPrefix(s[i..], d, "%");
      if i + |d| <= |s| {
        LikeAnything(s[i..][|d|..]);
        assert s[i..][..|d|] == s[i..i + |d|];
      }
    }
    if ContainsFolded(s, d) {
      var i :| 0 <= i <= |s| && OccursAt(s, d, i);
      assert Like(s[i..], d + "%");
    }
  }
}
