/** SQLite's `LIKE` operator as the store's search uses it: no ESCAPE clause,
    `%` matches any run of characters, `_` any single character, and every
    other character matches itself up to ASCII case. */
module SqlLike {
  import opened Text

  predicate IsWildcard(c: char) {
    c == '%' || c == '_'
  }

  predicate NoWildcards(q: string) {
    forall k :: 0 <= k < |q| ==> !IsWildcard(q[k])
  }

  /** `s LIKE p`. */
  predicate Like(p: string, s: string)
    decreases |p| + |s|
  {
    if p == [] then s == []
    else if p[0] == '%' then Like(p[1..], s) || (s != [] && Like(p, s[1..]))
    else if p[0] == '_' then s != [] && Like(p[1..], s[1..])
    else s != [] && FoldCase(p[0]) == FoldCase(s[0]) && Like(p[1..], s[1..])
  }

  /** The pattern bound at search time: the query between two `%`. */
  function SearchPattern(q: string): (p: string)
    ensures |p| == |q| + 2 && p[0] == '%' && p[|p| - 1] == '%' && p[1..|p| - 1] == q
  {
    "%" + q + "%"
  }

  /** A lone `%` matches every text. */
  lemma {:induction false} PercentMatchesAll(s: string)
    ensures Like("%", s)
  {
    if s != [] {
      PercentMatchesAll(s[1..]);
    }
  }

  lemma ConsPrefix(a: char, x: string, b: char, y: string)
    ensures [a] + x <= [b] + y <==> a == b && x <= y
  {
    if [a] + x <= [b] + y {
      assert ([a] + x)[0] == ([b] + y)[0];
      assert forall k :: 0 <= k < |x| ==> x[k] == ([a] + x)[k + 1] == ([b] + y)[k + 1] == y[k];
    }
  }

  /** For a wildcard-free `q`, `q%` matches exactly the texts that start with
      `q`, ignoring ASCII case. */
  lemma {:induction false} LikePrefix(q: string, s: string)
    requires NoWildcards(q)
    ensures Like(q + "%", s) <==> Folded(q) <= Folded(s)
  {
    if q == [] {
      assert q + "%" == "%";
      PercentMatchesAll(s);
    } else {
      var p := q + "%";
      assert p[0] == q[0] && p[1..] == q[1..] + "%";
      assert !IsWildcard(q[0]);
      if s != [] {
        LikePrefix(q[1..], s[1..]);
        assert Folded(q) == [FoldCase(q[0])] + Folded(q[1..]);
        assert Folded(s) == [FoldCase(s[0])] + Folded(s[1..]);
        ConsPrefix(FoldCase(q[0]), Folded(q[1..]), FoldCase(s[0]), Folded(s[1..]));
      }
    }
  }

  /** A leading `%` lets the rest of the pattern match any suffix of the text. */
  lemma {:induction false} LikeLeadingPercent(r: string, s: string)
    ensures Like("%" + r, s) <==> exists i :: 0 <= i <= |s| && Like(r, s[i..])
  {
    var p := "%" + r;
    assert p[0] == '%' && p[1..] == r;
    assert s[0..] == s;
    if s != [] {
      LikeLeadingPercent(r, s[1..]);
      if Like(p, s[1..]) {
        var i :| 0 <= i <= |s[1..]| && Like(r, s[1..][i..]);
        assert s[1..][i..] == s[i + 1..];
      }
      if exists i :: 0 <= i <= |s| && Like(r, s[i..]) {
        var i :| 0 <= i <= |s| && Like(r, s[i..]);
        if i > 0 {
          assert s[1..][i - 1..] == s[i..];
        }
      }
    }
  }

  /** For a wildcard-free query, `text LIKE '%q%'` holds exactly when the
      text contains the query, ignoring ASCII case. */
  lemma LikeIsContainment(q: string, s: string)
    requires NoWildcards(q)
    ensures Like(SearchPattern(q), s) <==> ContainsIgnoringCase(s, q)
  {
    assert SearchPattern(q) == "%" + (q + "%");
    LikeLeadingPercent(q + "%", s);
    if Like(SearchPattern(q), s) {
      var i :| 0 <= i <= |s| && Like(q + "%", s[i..]);
      LikePrefix(q, s[i..]);
      FoldedSuffix(s, i);
    }
    if ContainsIgnoringCase(s, q) {
      var i :| 0 <= i <= |Folded(s)| && Folded(q) <= Folded(s)[i..];
      FoldedSuffix(s, i);
      LikePrefix(q, s[i..]);
    }
  }

  /** The query is not escaped: an `_` in it matches any character, so a
      search for "a_c" finds "abc", which does not contain "a_c". */
  lemma UnderscoreMatchesAnyCharacter()
    ensures Like(SearchPattern("a_c"), "abc")
    ensures !ContainsIgnoringCase("abc", "a_c")
  {
    var p := SearchPattern("a_c");
    assert p == "%a_c%";
    assert p[1..] == "a_c%";
    assert p[2..] == "_c%" && p[3..] == "c%" && p[4..] == "%";
    assert "abc"[1..] == "bc" && "bc"[1..] == "c" && "c"[1..] == [];
    PercentMatchesAll([]);
    assert Like(p[4..], []);
    assert Like(p[3..], "c");
    assert Like(p[2..], "bc");
    assert Like(p[1..], "abc");
    var f := Folded("abc");
    forall i | 0 <= i <= |f| ensures !(Folded("a_c") <= f[i..]) {
      if i == 0 {
        assert Folded("a_c")[1] == FoldCase('_') == '_';
        assert f[0..][1] == FoldCase('b') == 'b';
      }
    }
  }
}
