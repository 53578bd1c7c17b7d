/** Character classes, case mapping and substring search on `string`s.

    Case mapping is ASCII only: Java's locale-sensitive `toUpperCase` /
    `toLowerCase` and the database's collation fold more characters, which
    this model does not.
 */
module Text {

  function UpperChar(c: char): char {
    if 'a' <= c <= 'z' then ((c as int) - 32) as char else c
  }

  function LowerChar(c: char): char {
    if 'A' <= c <= 'Z' then ((c as int) + 32) as char else c
  }

  /** `String.toUpperCase()`, restricted to ASCII letters. */
  function ToUpper(s: string): (r: string)
    ensures |r| == |s|
    ensures forall i :: 0 <= i < |s| ==> r[i] == UpperChar(s[i])
  {
    seq(|s|, i requires 0 <= i < |s| => UpperChar(s[i]))
  }

  /** `String.toLowerCase()` and SQL `LOWER`, restricted to ASCII letters. */
  function ToLower(s: string): (r: string)
    ensures |r| == |s|
    ensures forall i :: 0 <= i < |s| ==> r[i] == LowerChar(s[i])
  {
    seq(|s|, i requires 0 <= i < |s| => LowerChar(s[i]))
  }

  lemma ToLowerAppend(a: string, b: string)
    ensures ToLower(a + b) == ToLower(a) + ToLower(b)
  {
    assert forall i :: 0 <= i < |a + b| ==> ToLower(a + b)[i] == (ToLower(a) + ToLower(b))[i];
  }

  /** True when Java's `String.trim()` would leave nothing: `trim` strips
      every character at or below U+0020. Hibernate Validator's `@NotBlank`
      uses the same test. */
  predicate JavaBlank(s: string) {
    forall i :: 0 <= i < |s| ==> s[i] <= ' '
  }

  /** JavaScript's WhiteSpace and LineTerminator characters, which
      `String.prototype.trim` strips. */
  predicate JsWhitespace(c: char) {
    || c == '\t' || c == '\n' || c == '\U{B}' || c == '\U{C}' || c == '\r'
    || c == ' ' || c == '\U{A0}' || c == '\U{1680}'
    || ('\U{2000}' <= c <= '\U{200A}')
    || c == '\U{2028}' || c == '\U{2029}' || c == '\U{202F}' || c == '\U{205F}'
    || c == '\U{3000}' || c == '\U{FEFF}'
  }

  /** True when `s.trim()` is the empty (falsy) string in JavaScript. */
  predicate JsBlank(s: string) {
    forall i :: 0 <= i < |s| ==> JsWhitespace(s[i])
  }

  predicate IsPrefix(q: string, s: string) {
    |q| <= |s| && s[..|q|] == q
  }

  /** `q` occurs in `s` at some position: the meaning of "contains". */
  ghost predicate Occurs(q: string, s: string) {
    exists i :: 0 <= i <= |s| && IsPrefix(q, s[i..])
  }

  /** Substring search, by scanning each start position. */
  function Contains(s: string, q: string): (b: bool)
    ensures b <==> Occurs(q, s)
  {
    if IsPrefix(q, s) then
      assert IsPrefix(q, s[0..]);
      true
    else if |s| == 0 then
      assert forall i :: 0 <= i <= |s| ==> s[i..] == s;
      false
    else
      var rest := Contains(s[1..], q);
      assert forall i :: 1 <= i <= |s| ==> s[i..] == s[1..][i - 1..];
      assert rest ==> Occurs(q, s) by {
        if rest {
          var j :| 0 <= j <= |s[1..]| && IsPrefix(q, s[1..][j..]);
          assert s[1..][j..] == s[j + 1..];
        }
      }
      rest
  }

  /** Case-insensitive containment, as Ebean's `icontains` and SQL
      `LOWER(x) LIKE LOWER(...)` compare. */
  predicate ContainsIgnoreCase(s: string, q: string) {
    Contains(ToLower(s), ToLower(q))
  }
}

/** The SQL `LIKE` operator without an `ESCAPE` clause: `%` matches any run of
    characters, `_` matches exactly one, every other character itself. */
module SqlLike {
  import opened Text

  predicate NoWildcards(q: string) {
    forall i :: 0 <= i < |q| ==> q[i] != '%' && q[i] != '_'
  }

  /** `s LIKE p`. A pattern without wildcards matches only itself. */
  function Like(s: string, p: string): (b: bool)
    ensures NoWildcards(p) ==> (b <==> s == p)
    decreases |s| + |p|
  {
    if |p| == 0 then |s| == 0
    else if p[0] == '%' then Like(s, p[1..]) || (|s| > 0 && Like(s[1..], p))
    else
      assert NoWildcards(p) ==> NoWildcards(p[1..]) by {
        assert forall i :: 0 <= i < |p| - 1 ==> p[1..][i] == p[i + 1];
      }
      assert |s| > 0 ==> (s == p <==> p[0] == s[0] && s[1..] == p[1..]) by {
        if |s| > 0 && p[0] == s[0] && s[1..] == p[1..] {
          assert s == [s[0]] + s[1..] && p == [p[0]] + p[1..];
        }
      }
      |s| > 0 && (p[0] == '_' || p[0] == s[0]) && Like(s[1..], p[1..])
  }

  /** A trailing `%` after a wildcard-free literal asks for a prefix. */
  lemma {:induction false} LikeLiteralThenAny(s: string, q: string)
    requires NoWildcards(q)
    ensures Like(s, q + "%") <==> IsPrefix(q, s)
    decreases |q|
  {
    if |q| == 0 {
      LikeAnyMatchesAll(s);
      assert q + "%" == "%";
    } else {
      assert (q + "%")[1..] == q[1..] + "%";
      assert q[0] != '%' && q[0] != '_';
      if |s| > 0 {
        LikeLiteralThenAny(s[1..], q[1..]);
        assert IsPrefix(q, s) <==> s[0] == q[0] && IsPrefix(q[1..], s[1..]) by {
          if IsPrefix(q, s) {
            assert s[1..][..|q| - 1] == s[..|q|][1..];
          }
          if s[0] == q[0] && IsPrefix(q[1..], s[1..]) {
            assert s[..|q|] == [s[0]] + s[1..][..|q| - 1];
          }
        }
      }
    }
  }

  /** A lone `%` matches every string. */
  lemma {:induction false} LikeAnyMatchesAll(s: string)
    ensures Like(s, "%")
    decreases |s|
  {
    if |s| > 0 {
      LikeAnyMatchesAll(s[1..]);
    } else {
      assert "%"[1..] == "";
    }
  }

  /** A leading `%` lets the rest of the pattern match any suffix. */
  lemma {:induction false} LikeAnyThen(s: string, p: string)
    ensures Like(s, "%" + p) <==> exists i :: 0 <= i <= |s| && Like(s[i..], p)
    decreases |s|
  {
    var pp := "%" + p;
    assert pp[1..] == p;
    assert s[0..] == s;
    if |s| > 0 {
      LikeAnyThen(s[1..], p);
      assert forall i :: 1 <= i <= |s| ==> s[i..] == s[1..][i - 1..];
      if exists i :: 0 <= i <= |s| && Like(s[i..], p) {
        var i :| 0 <= i <= |s| && Like(s[i..], p);
        if i > 0 {
          assert Like(s[1..][i - 1..], p);
        }
      }
    }
  }

  /** The search pattern `"%" + q + "%"` is substring search when `q` is free
      of wildcards. */
  lemma LikeSurroundedIsContains(s: string, q: string)
    requires NoWildcards(q)
    ensures Like(s, "%" + q + "%") <==> Contains(s, q)
  {
    assert "%" + q + "%" == "%" + (q + "%");
    LikeAnyThen(s, q + "%");
    forall i | 0 <= i <= |s|
      ensures Like(s[i..], q + "%") <==> IsPrefix(q, s[i..])
    {
      LikeLiteralThenAny(s[i..], q);
    }
  }
}
