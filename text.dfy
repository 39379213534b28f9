/** Case folding and the SQL `ILIKE` pattern match the search handler relies on. */
module Text {

  /** In a LIKE pattern, `%` matches any run of characters and `_` any single character. */
  const AnyRun: char := '%'
  const AnyChar: char := '_'

  predicate IsUpper(c: char) { 'A' <= c <= 'Z' }

  function LowerChar(c: char): (d: char)
    ensures !IsUpper(d)
    ensures !IsUpper(c) ==> d == c
  {
    if IsUpper(c) then (c as int - 'A' as int + 'a' as int) as char else c
  }

  /** `s` with every upper-case letter replaced by its lower-case form. */
  function Lower(s: string): (r: string)
    ensures |r| == |s|
    ensures forall i :: 0 <= i < |r| ==> !IsUpper(r[i])
  {
    seq(|s|, i requires 0 <= i < |s| => LowerChar(s[i]))
  }

  lemma LowerAppend(a: string, b: string)
    ensures Lower(a + b) == Lower(a) + Lower(b)
  {
  }

  /** `t` holds no LIKE wildcard. */
  predicate Literal(t: string)
  {
    forall i :: 0 <= i < |t| ==> t[i] != AnyRun && t[i] != AnyChar
  }

  lemma LowerKeepsLiteral(t: string)
    requires Literal(t)
    ensures Literal(Lower(t))
  {
  }

  /** SQL `s LIKE p`: the whole of `s` must match the whole of `p`. */
  predicate Like(s: string, p: string)
    decreases |s| + |p|
  {
    if p == [] then s == []
    else if p[0] == AnyRun then Like(s, p[1..]) || (s != [] && Like(s[1..], p))
    else s != [] && (p[0] == AnyChar || p[0] == s[0]) && Like(s[1..], p[1..])
  }

  /** `t` occurs in `s` as a contiguous block. */
  predicate Contains(s: string, t: string)
  {
    exists i :: 0 <= i <= |s| && t <= s[i..]
  }

  /** A lone `%` matches every string. */
  lemma {:induction false} LikeAnyRun(s: string)
    ensures Like(s, [AnyRun])
  {
    if s != [] {
      LikeAnyRun(s[1..]);
    }
  }

  /** A literal followed by `%` matches exactly the strings the literal begins. */
  lemma {:induction false} LikePrefix(s: string, t: string)
    requires Literal(t)
    ensures Like(s, t + [AnyRun]) <==> t <= s
  {
    if t == [] {
      assert t + [AnyRun] == [AnyRun];
      LikeAnyRun(s);
    } else {
      assert (t + [AnyRun])[1..] == t[1..] + [AnyRun];
      if s != [] {
        LikePrefix(s[1..], t[1..]);
        assert t <= s <==> t[0] == s[0] && t[1..] <= s[1..];
      }
    }
  }

  /** A leading `%` lets the rest of the pattern match any suffix. */
  lemma {:induction false} LikeLeadingRun(s: string, q: string)
    ensures Like(s, [AnyRun] + q) <==> exists i :: 0 <= i <= |s| && Like(s[i..], q)
  {
    assert ([AnyRun] + q)[1..] == q;
    assert s[0..] == s;
    if s != [] {
      LikeLeadingRun(s[1..], q);
      if exists i :: 0 <= i <= |s| - 1 && Like(s[1..][i..], q) {
        var i :| 0 <= i <= |s| - 1 && Like(s[1..][i..], q);
        assert s[1..][i..] == s[i + 1..];
      }
      if exists i :: 0 <= i <= |s| && Like(s[i..], q) {
        var i :| 0 <= i <= |s| && Like(s[i..], q);
        if i > 0 {
          assert s[i..] == s[1..][i - 1..];
        }
      }
    }
  }

  /** `%t%` with a literal `t` matches exactly the strings that contain `t`. */
  lemma LikeFindsSubstring(s: string, t: string)
    requires Literal(t)
    ensures Like(s, [AnyRun] + t + [AnyRun]) <==> Contains(s, t)
  {
    assert [AnyRun] + t + [AnyRun] == [AnyRun] + (t + [AnyRun]);
    LikeLeadingRun(s, t + [AnyRun]);
    forall i | 0 <= i <= |s|
      ensures Like(s[i..], t + [AnyRun]) <==> t <= s[i..]
    {
      LikePrefix(s[i..], t);
    }
  }

  /** A pattern `%_%` matches every non-empty string. */
  lemma UnderscoreMatchesAnyNonEmpty(s: string)
    requires s != []
    ensures Like(s, [AnyRun, AnyChar, AnyRun])
  {
    assert [AnyRun, AnyChar, AnyRun][1..] == [AnyChar, AnyRun];
    assert [AnyChar, AnyRun][1..] == [AnyRun];
    LikeAnyRun(s[1..]);
  }
}
