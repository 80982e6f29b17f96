/**
 * The SQL `LIKE` operator: `%` matches any run of characters, `_` matches
 * exactly one character, every other pattern character matches itself.
 * Without an `ESCAPE` clause the usual databases also treat `\` as an escape
 * character; that is not modelled, and the lemmas that relate `LIKE` to
 * substring search exclude it along with the wildcards.
 */
module SqlLike {
  import opened Text

  function Like(s: string, p: string): bool
    decreases |s| + |p|
  {
    if |p| == 0 then |s| == 0
    else if p[0] == '%' then Like(s, p[1..]) || (|s| > 0 && Like(s[1..], p))
    else |s| > 0 && (p[0] == '_' || p[0] == s[0]) && Like(s[1..], p[1..])
  }

  /** `f` contains no character `LIKE` treats specially: neither wildcard nor the default escape `\`. */
  predicate PlainPattern(f: string) {
    forall i :: 0 <= i < |f| ==> f[i] != '%' && f[i] != '_' && f[i] != '\\'
  }

  /** The wrapping `'%' + f + '%'` the repository queries build with `CONCAT`. */
  function Infix(f: string): string {
    "%" + f + "%"
  }

  lemma {:induction false} LikeAnything(s: string)
    ensures Like(s, "%")
    decreases |s|
  {
    if |s| > 0 {
      LikeAnything(s[1..]);
    }
  }

  /** A plain pattern followed by `%` matches exactly the strings it prefixes. */
  lemma {:induction false} LikePrefix(t: string, f: string)
    requires PlainPattern(f)
    ensures Like(t, f + "%") <==> IsPrefix(f, t)
    decreases |f|
  {
    if |f| == 0 {
      assert f + "%" == "%";
      LikeAnything(t);
    } else {
      assert (f + "%")[0] == f[0];
      assert (f + "%")[1..] == f[1..] + "%";
      if |t| > 0 {
        LikePrefix(t[1..], f[1..]);
        assert IsPrefix(f, t) <==> f[0] == t[0] && IsPrefix(f[1..], t[1..]) by {
          if |f| <= |t| {
            assert t[..|f|] == [t[0]] + t[1..][..|f| - 1];
            assert f == [f[0]] + f[1..];
          }
        }
      }
    }
  }

  /** A plain pattern matches exactly itself. */
  lemma {:induction false} LikeLiteral(s: string, p: string)
    requires PlainPattern(p)
    ensures Like(s, p) <==> s == p
    decreases |p|
  {
    if |p| > 0 && |s| > 0 {
      LikeLiteral(s[1..], p[1..]);
      assert s == p <==> s[0] == p[0] && s[1..] == p[1..] by {
        if s[0] == p[0] && s[1..] == p[1..] {
          assert s == [s[0]] + s[1..] && p == [p[0]] + p[1..];
        }
      }
    }
  }

  /**
   * For a plain fragment, `s LIKE '%' + f + '%'` is exactly
   * substring containment.
   */
  lemma {:induction false} LikeInfixIffContains(s: string, f: string)
    requires PlainPattern(f)
    ensures Like(s, Infix(f)) <==> Contains(s, f)
    decreases |s|
  {
    var q := f + "%";
    assert Infix(f) == "%" + q;
    assert Infix(f)[1..] == q;
    LikePrefix(s, f);
    if |s| > 0 {
      LikeInfixIffContains(s[1..], f);
    }
  }

  /** Lower-casing keeps the `%` wrapping and leaves the special characters where they were. */
  lemma LowerInfix(f: string)
    ensures Lower(Infix(f)) == Infix(Lower(f))
    ensures PlainPattern(f) <==> PlainPattern(Lower(f))
  {
    LowerConcat("%" + f, "%");
    LowerConcat("%", f);
    if PlainPattern(f) {
      assert forall i :: 0 <= i < |f| ==> Lower(f)[i] == LowerChar(f[i]);
    }
    if PlainPattern(Lower(f)) {
      forall i | 0 <= i < |f| ensures f[i] != '%' && f[i] != '_' && f[i] != '\\' {
        assert Lower(f)[i] == LowerChar(f[i]);
      }
    }
  }
}
