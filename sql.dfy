/** The pieces of PostgreSQL semantics the handlers depend on: the integer
    cast applied to a matricule suffix, prefix matching with `LIKE`, and the
    case folding of unquoted identifiers (which names the columns of a
    result row). */
module Sql {

  import opened Wrappers
  import opened Text

  const MinInt4 := -2147483648
  const MaxInt4 := 2147483647

  /** The white space PostgreSQL's integer input skips around the numeral. */
  predicate IsSqlSpace(c: char)
  {
    c == ' ' || c == '\t' || c == '\n' || c == '\r' || c == '\U{B}' || c == '\U{C}'
  }

  function TrimStart(s: string): (t: string)
    ensures |t| <= |s| && t == s[|s| - |t|..]
    ensures |t| > 0 ==> !IsSqlSpace(t[0])
    decreases |s|
  {
    if |s| > 0 && IsSqlSpace(s[0]) then TrimStart(s[1..]) else s
  }

  function TrimEnd(s: string): (t: string)
    ensures |t| <= |s| && t == s[..|t|]
    ensures |t| > 0 ==> !IsSqlSpace(t[|t| - 1])
    decreases |s|
  {
    if |s| > 0 && IsSqlSpace(s[|s| - 1]) then TrimEnd(s[..|s| - 1]) else s
  }

  /** `CAST(s AS INTEGER)`: optional surrounding white space, an optional
      sign, one or more decimal digits, and a value in the 32-bit range;
      `None` is the error that aborts the statement. */
  function CastInteger(s: string): (r: Option<int>)
    ensures r.Some? ==> MinInt4 <= r.value <= MaxInt4
  {
    CastTrimmed(TrimEnd(TrimStart(s)))
  }

  /** The cast once the white space is gone. */
  function CastTrimmed(t: string): (r: Option<int>)
    ensures r.Some? ==> MinInt4 <= r.value <= MaxInt4
  {
    var negative := |t| > 0 && t[0] == '-';
    var digits := if |t| > 0 && (t[0] == '-' || t[0] == '+') then t[1..] else t;
    if |digits| == 0 || !AllDigits(digits) then None
    else
      var v := if negative then -(DecimalValue(digits) as int) else DecimalValue(digits);
      if MinInt4 <= v <= MaxInt4 then Some(v) else None
  }

  /** The cast reads back what `IntToString` printed, or fails when the value
      does not fit in 32 bits. */
  lemma CastIntegerOfString(n: int)
    ensures CastInteger(IntToString(n)) == if MinInt4 <= n <= MaxInt4 then Some(n) else None
  {
    var m: nat := if n < 0 then -n else n;
    DecimalRoundTrip(m);
    if n < 0 {
      CastOfNegativeNumeral(NatToDecimal(m));
    } else {
      CastOfNumeral(NatToDecimal(m));
    }
  }

  lemma CastOfNumeral(d: string)
    requires |d| > 0 && AllDigits(d)
    ensures CastInteger(d) == if DecimalValue(d) <= MaxInt4 then Some(DecimalValue(d) as int) else None
  {
    assert IsDigit(d[0]) && IsDigit(d[|d| - 1]);
    TrimNothing(d);
  }

  lemma CastOfNegativeNumeral(d: string)
    requires |d| > 0 && AllDigits(d)
    ensures CastInteger("-" + d) == if MinInt4 <= -(DecimalValue(d) as int) then Some(-(DecimalValue(d) as int)) else None
  {
    NegativeNumeralIsTrimmed(d);
    CastTrimmedNegative(d);
  }

  lemma NegativeNumeralIsTrimmed(d: string)
    requires |d| > 0 && AllDigits(d)
    ensures TrimEnd(TrimStart("-" + d)) == "-" + d
  {
    var s := "-" + d;
    assert s[|s| - 1] == d[|d| - 1] && IsDigit(d[|d| - 1]);
    TrimNothing(s);
  }

  lemma CastTrimmedNegative(d: string)
    requires |d| > 0 && AllDigits(d)
    ensures CastTrimmed("-" + d) == if MinInt4 <= -(DecimalValue(d) as int) then Some(-(DecimalValue(d) as int)) else None
  {
    var s := "-" + d;
    assert s[0] == '-' && s[1..] == d;
  }

  /** Text that starts and ends with a non-space is left alone by trimming. */
  lemma TrimNothing(s: string)
    requires |s| > 0 && !IsSqlSpace(s[0]) && !IsSqlSpace(s[|s| - 1])
    ensures TrimEnd(TrimStart(s)) == s
  {
    assert TrimStart(s) == s;
  }

  predicate StartsWith(s: string, prefix: string)
  {
    |prefix| <= |s| && s[..|prefix|] == prefix
  }

  /** `s LIKE pattern` with the default escape character `\`: `%` matches
      any run of characters, `_` any one character, `\` makes the next
      character literal, and every other character matches itself. A pattern
      ending in a lone `\` is an error in PostgreSQL; the patterns built here
      all end in `%`, so that case is given the value `false` and never
      arises. */
  predicate LikeMatch(s: string, pattern: string)
    decreases |s| + |pattern|
  {
    if |pattern| == 0 then |s| == 0
    else if pattern[0] == '%' then LikeMatch(s, pattern[1..]) || (|s| > 0 && LikeMatch(s[1..], pattern))
    else if pattern[0] == '_' then |s| > 0 && LikeMatch(s[1..], pattern[1..])
    else if pattern[0] == '\\' then
      |pattern| >= 2 && |s| > 0 && s[0] == pattern[1] && LikeMatch(s[1..], pattern[2..])
    else |s| > 0 && s[0] == pattern[0] && LikeMatch(s[1..], pattern[1..])
  }

  /** `%`, `_` and `\` are the characters that make a `LIKE` pattern more
      than a literal. */
  predicate HasNoLikeMetachars(s: string)
  {
    forall i :: 0 <= i < |s| ==> s[i] != '%' && s[i] != '_' && s[i] != '\\'
  }

  predicate HasNoLikeEscape(s: string)
  {
    forall i :: 0 <= i < |s| ==> s[i] != '\\'
  }

  lemma {:induction false} LikeAnySuffix(s: string)
    ensures LikeMatch(s, "%")
    decreases |s|
  {
    if |s| > 0 {
      LikeAnySuffix(s[1..]);
    }
  }

  /** For a literal free of metacharacters, `s LIKE literal || '%'` is a test
      of prefix. */
  lemma {:induction false} LikeLiteralPrefix(s: string, literal: string)
    requires HasNoLikeMetachars(literal)
    ensures LikeMatch(s, literal + "%") <==> StartsWith(s, literal)
    decreases |literal|
  {
    if |literal| == 0 {
      assert literal + "%" == "%";
      LikeAnySuffix(s);
    } else {
      assert (literal + "%")[1..] == literal[1..] + "%";
      if |s| > 0 {
        LikeLiteralPrefix(s[1..], literal[1..]);
        if StartsWith(s, literal) {
          assert s[1..][..|literal| - 1] == s[..|literal|][1..];
        }
        if StartsWith(s[1..], literal[1..]) && s[0] == literal[0] {
          assert s[..|literal|] == [s[0]] + s[1..][..|literal| - 1];
        }
      }
    }
  }

  /** Whatever wildcards it holds, a pattern without the escape character,
      followed by `%`, matches itself followed by any text. */
  lemma {:induction false} LikeMatchesOwnText(p: string, t: string)
    requires HasNoLikeEscape(p)
    ensures LikeMatch(p + t, p + "%")
    decreases |p|
  {
    if |p| == 0 {
      assert p + t == t && p + "%" == "%";
      LikeAnySuffix(t);
    } else {
      var s, pat := p + t, p + "%";
      assert s[1..] == p[1..] + t;
      assert pat[1..] == p[1..] + "%";
      LikeMatchesOwnText(p[1..], t);
      if p[0] == '%' {
        assert LikeMatch(s[1..], pat);
      }
    }
  }

  /** `SUBSTRING(s FROM start)` with 1-based `start`: the rest of `s` from that
      position, or the empty string past its end. */
  function SubstringFrom(s: string, start: int): (r: string)
    ensures 1 <= start <= |s| + 1 ==> r == s[start - 1..]
  {
    if start <= 1 then s else if start - 1 <= |s| then s[start - 1..] else ""
  }

  /** How PostgreSQL folds an unquoted identifier: ASCII upper-case letters
      become lower case, everything else is kept. */
  function FoldIdentifier(name: string): (r: string)
    ensures |r| == |name|
    ensures forall i :: 0 <= i < |name| ==> !IsUpper(r[i])
  {
    seq(|name|, i requires 0 <= i < |name| =>
      if IsUpper(name[i]) then ((name[i] as int) + 32) as char else name[i])
  }

  /** A name with no upper-case letter is its own folded form. */
  lemma FoldIdentifierOfLowerCase(name: string)
    requires forall i :: 0 <= i < |name| ==> !IsUpper(name[i])
    ensures FoldIdentifier(name) == name
  {
  }
}
