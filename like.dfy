/** The `ILIKE` filter behind the search endpoint: SQL `LIKE` matching with
    PostgreSQL's default escape character `\`, applied to case-folded text. */
module Like {

  /** ASCII case folding. */
  function LowerChar(c: char): char {
    if 'A' <= c <= 'Z' then (c as int + 32) as char else c
  }

  function Lower(s: string): string {
    seq(|s|, i requires 0 <= i < |s| => LowerChar(s[i]))
  }

  /** `text LIKE pattern`: `%` matches any run of characters, `_` any one
      character, `\` makes the next pattern character literal. A pattern ending
      in a lone `\` is an error in PostgreSQL; it never arises from the patterns
      built by `ContainsPattern`, and here it matches nothing. */
  function LikeMatch(pattern: string, text: string): bool
    decreases |pattern| + |text|
  {
    if pattern == [] then text == []
    else if pattern[0] == '%' then
      LikeMatch(pattern[1..], text) || (text != [] && LikeMatch(pattern, text[1..]))
    else if pattern[0] == '_' then
      text != [] && LikeMatch(pattern[1..], text[1..])
    else if pattern[0] == '\\' then
      |pattern| >= 2 && text != [] && text[0] == pattern[1] && LikeMatch(pattern[2..], text[1..])
    else
      text != [] && text[0] == pattern[0] && LikeMatch(pattern[1..], text[1..])
  }

  /** `text ILIKE pattern`, with ASCII case folding standing for the collation. */
  predicate ILike(text: string, pattern: string) {
    LikeMatch(Lower(pattern), Lower(text))
  }

  /** The pattern `f"%{term}%"` the search endpoint builds. */
  function ContainsPattern(term: string): string {
    "%" + term + "%"
  }

  /** A term with no character that `LIKE` treats specially. */
  predicate IsPlain(term: string) {
    forall i :: 0 <= i < |term| ==> term[i] != '%' && term[i] != '_' && term[i] != '\\'
  }

  /** `t` occurs in `s` as a contiguous run. */
  predicate IsSubstring(t: string, s: string) {
    t <= s || (s != [] && IsSubstring(t, s[1..]))
  }

  /** Folding leaves no upper-case ASCII letter and is idempotent; it changes
      nothing else than upper-case ASCII letters. */
  lemma LowerFolds(s: string)
    ensures forall i :: 0 <= i < |Lower(s)| ==> !('A' <= Lower(s)[i] <= 'Z')
    ensures forall i :: 0 <= i < |s| && !('A' <= s[i] <= 'Z') ==> Lower(s)[i] == s[i]
    ensures Lower(Lower(s)) == Lower(s)
  {
  }

  /** A pattern with no special character matches only itself. */
  lemma {:induction false} PlainPatternIsEquality(p: string, text: string)
    requires IsPlain(p)
    ensures LikeMatch(p, text) <==> text == p
  {
    if p != [] && text != [] {
      assert IsPlain(p[1..]) by {
        forall i | 0 <= i < |p[1..]| ensures p[1..][i] != '%' && p[1..][i] != '_' && p[1..][i] != '\\' {
          assert p[1..][i] == p[i + 1];
        }
      }
      PlainPatternIsEquality(p[1..], text[1..]);
      assert text == p <==> text[0] == p[0] && text[1..] == p[1..];
    }
  }

  /** `_` matches exactly one character, and `\%` matches only a literal `%`. */
  lemma WildcardAndEscape(text: string)
    ensures LikeMatch("_", text) <==> |text| == 1
    ensures LikeMatch("\\%", text) <==> text == "%"
  {
    assert "_"[1..] == [];
    assert "\\%"[2..] == [];
  }

  /** `%` alone matches every text. */
  lemma {:induction false} PercentMatchesAll(text: string)
    ensures LikeMatch("%", text)
  {
    if text != [] {
      PercentMatchesAll(text[1..]);
    }
  }

  /** A plain term followed by `%` matches exactly the texts it prefixes. */
  lemma {:induction false} PlainPrefixMatch(t: string, text: string)
    requires IsPlain(t)
    ensures LikeMatch(t + "%", text) <==> t <= text
  {
    if t == [] {
      assert t + "%" == "%";
      PercentMatchesAll(text);
    } else {
      assert (t + "%")[0] == t[0];
      assert (t + "%")[1..] == t[1..] + "%";
      assert IsPlain(t[1..]) by {
        forall i | 0 <= i < |t[1..]| ensures t[1..][i] != '%' && t[1..][i] != '_' && t[1..][i] != '\\' {
          assert t[1..][i] == t[i + 1];
        }
      }
      if text != [] {
        PlainPrefixMatch(t[1..], text[1..]);
        assert t <= text <==> t[0] == text[0] && t[1..] <= text[1..];
      }
    }
  }

  /** `%term%` with a plain term matches exactly the texts that contain the term. */
  lemma {:induction false} PlainContainsMatch(t: string, text: string)
    requires IsPlain(t)
    ensures LikeMatch(ContainsPattern(t), text) <==> IsSubstring(t, text)
  {
    var p := ContainsPattern(t);
    assert p[0] == '%';
    assert p[1..] == t + "%";
    PlainPrefixMatch(t, text);
    if text != [] {
      PlainContainsMatch(t, text[1..]);
    }
  }

  /** Case folding commutes with building the pattern and keeps a term plain. */
  lemma LowerContainsPattern(t: string)
    ensures Lower(ContainsPattern(t)) == ContainsPattern(Lower(t))
    ensures IsPlain(t) ==> IsPlain(Lower(t))
  {
    var p := ContainsPattern(t);
    assert |Lower(p)| == |ContainsPattern(Lower(t))|;
    forall i | 0 <= i < |p| ensures Lower(p)[i] == ContainsPattern(Lower(t))[i] {
      if 0 < i < |p| - 1 {
        assert p[i] == t[i - 1];
      }
    }
  }

  /** The search filter on a term free of `%`, `_` and `\` is a
      case-insensitive substring test. */
  lemma PlainSearchIsSubstring(text: string, term: string)
    requires IsPlain(term)
    ensures ILike(text, ContainsPattern(term)) <==> IsSubstring(Lower(term), Lower(text))
  {
    LowerContainsPattern(term);
    PlainContainsMatch(Lower(term), Lower(text));
  }

  /** The empty term (the default when `searchTerm` is missing) matches every text. */
  lemma EmptyTermMatchesAll(text: string)
    ensures ILike(text, ContainsPattern(""))
  {
    assert Lower(ContainsPattern("")) == "%%";
    assert "%%"[1..] == "%";
    PercentMatchesAll(Lower(text));
  }
}
