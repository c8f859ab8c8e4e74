/** The JavaScript string operations the bundler relies on: doubling
    backslashes, reading a quoted literal back, `JSON.stringify` of a
    string, and global `String.prototype.replace`. */
module JsText {
  import opened Wrappers

  /** `s.replace(/\\/g, '\\\\')`: every backslash doubled. */
  function DoubleBackslashes(s: string): string
    decreases |s|
  {
    if s == [] then []
    else (if s[0] == '\\' then "\\\\" else [s[0]]) + DoubleBackslashes(s[1..])
  }

  predicate IsLineBreak(c: char) {
    c == '\n' || c == '\r'
  }

  /** `s` can stand between single quotes after its backslashes are
      doubled: it holds no quote and no line break. */
  predicate FitsSingleQuotes(s: string) {
    forall i :: 0 <= i < |s| ==> s[i] != '\'' && !IsLineBreak(s[i])
  }

  function Prepend(c: char, o: Option<string>): Option<string> {
    match o
    case None => None
    case Some(t) => Some([c] + t)
  }

  /** The value of a JavaScript single-quoted literal whose body is `s`,
      for bodies whose only escapes are `\\` and `\'`; None for a body with
      a bare quote or line break (it ends or breaks the literal) or with an
      escape outside that pair, which is not decoded here. */
  function SingleQuotedValue(s: string): Option<string>
    decreases |s|
  {
    if s == [] then Some([])
    else if s[0] == '\'' || IsLineBreak(s[0]) then None
    else if s[0] == '\\' then
      if |s| >= 2 && (s[1] == '\\' || s[1] == '\'')
      then Prepend(s[1], SingleQuotedValue(s[2..]))
      else None
    else Prepend(s[0], SingleQuotedValue(s[1..]))
  }

  /** Doubling backslashes is undone by reading the text as a
      single-quoted literal, exactly when the text holds no quote and no
      line break. */
  lemma {:induction false} DoubledReadsBack(s: string)
    ensures SingleQuotedValue(DoubleBackslashes(s)) ==
      if FitsSingleQuotes(s) then Some(s) else None
    decreases |s|
  {
    if s != [] {
      var rest := DoubleBackslashes(s[1..]);
      DoubledReadsBack(s[1..]);
      assert FitsSingleQuotes(s) <==> s[0] != '\'' && !IsLineBreak(s[0]) && FitsSingleQuotes(s[1..]) by {
        if FitsSingleQuotes(s) {
          forall i | 0 <= i < |s[1..]| ensures s[1..][i] != '\'' && !IsLineBreak(s[1..][i]) {
            assert s[1..][i] == s[i + 1];
          }
        }
        if s[0] != '\'' && !IsLineBreak(s[0]) && FitsSingleQuotes(s[1..]) {
          forall i | 0 <= i < |s| ensures s[i] != '\'' && !IsLineBreak(s[i]) {
            if i > 0 { assert s[i] == s[1..][i - 1]; }
          }
        }
      }
      if s[0] == '\\' {
        var d := "\\\\" + rest;
        assert d[0] == '\\' && d[1] == '\\' && d[2..] == rest;
        assert [s[0]] + s[1..] == s;
      } else {
        var d := [s[0]] + rest;
        assert d[0] == s[0] && d[1..] == rest;
        assert [s[0]] + s[1..] == s;
      }
    }
  }

  // ---------------------------------------------------------------------
  // JSON.stringify of a string, and reading a double-quoted literal back

  function HexDigit(n: nat): char
    requires n < 16
  {
    if n < 10 then ('0' as int + n) as char else ('a' as int + n - 10) as char
  }

  function HexValue(c: char): Option<nat> {
    if '0' <= c <= '9' then Some(c as int - '0' as int)
    else if 'a' <= c <= 'f' then Some(c as int - 'a' as int + 10)
    else if 'A' <= c <= 'F' then Some(c as int - 'A' as int + 10)
    else None
  }

  /** What `JSON.stringify` writes for one character of a string. */
  function JsonChar(c: char): string {
    if c == '"' then "\\\""
    else if c == '\\' then "\\\\"
    else if c as int == 8 then "\\b"
    else if c as int == 12 then "\\f"
    else if c == '\n' then "\\n"
    else if c == '\r' then "\\r"
    else if c == '\t' then "\\t"
    else if (c as int) < 32 then "\\u00" + [HexDigit(c as int / 16), HexDigit(c as int % 16)]
    else [c]
  }

  /** The text between the quotes of `JSON.stringify(s)`. */
  function JsonBody(s: string): string
    decreases |s|
  {
    if s == [] then [] else JsonChar(s[0]) + JsonBody(s[1..])
  }

  /** `JSON.stringify(s)` for a string `s`. */
  function JsonQuote(s: string): string {
    "\"" + JsonBody(s) + "\""
  }

  /** The character a `\u` escape with four hex digits denotes, if it
      denotes one. */
  function UnicodeEscape(s: string): Option<char>
    requires |s| == 4
  {
    match (HexValue(s[0]), HexValue(s[1]), HexValue(s[2]), HexValue(s[3]))
    case (Some(a), Some(b), Some(c), Some(d)) =>
      var v := 4096 * a + 256 * b + 16 * c + d;
      if v < 0xD800 || 0xE000 <= v then Some(v as char) else None
    case _ => None
  }

  /** The value of a JavaScript double-quoted literal whose body is `s`,
      for the escapes JSON uses; None for a bare quote or line break, and
      for escapes outside JSON's set. */
  function DoubleQuotedValue(s: string): Option<string>
    decreases |s|
  {
    if s == [] then Some([])
    else if s[0] == '"' || IsLineBreak(s[0]) then None
    else if s[0] != '\\' then Prepend(s[0], DoubleQuotedValue(s[1..]))
    else if |s| < 2 then None
    else if s[1] == '"' || s[1] == '\\' || s[1] == '/' then Prepend(s[1], DoubleQuotedValue(s[2..]))
    else if s[1] == 'b' then Prepend(8 as char, DoubleQuotedValue(s[2..]))
    else if s[1] == 'f' then Prepend(12 as char, DoubleQuotedValue(s[2..]))
    else if s[1] == 'n' then Prepend('\n', DoubleQuotedValue(s[2..]))
    else if s[1] == 'r' then Prepend('\r', DoubleQuotedValue(s[2..]))
    else if s[1] == 't' then Prepend('\t', DoubleQuotedValue(s[2..]))
    else if s[1] == 'u' && |s| >= 6 then
      match UnicodeEscape(s[2..6])
      case None => None
      case Some(c) => Prepend(c, DoubleQuotedValue(s[6..]))
    else None
  }

  lemma JsonCharReadsBack(c: char, rest: string)
    ensures DoubleQuotedValue(JsonChar(c) + rest) == Prepend(c, DoubleQuotedValue(rest))
  {
    var t := JsonChar(c) + rest;
    if c == '"' || c == '\\' || c as int == 8 || c as int == 12 || c == '\n' || c == '\r' || c == '\t' {
      assert t[2..] == rest;
    } else if (c as int) < 32 {
      var hi, lo := c as int / 16, c as int % 16;
      assert t[0] == '\\' && t[1] == 'u';
      assert t[2..6] == ['0', '0', HexDigit(hi), HexDigit(lo)];
      assert HexValue(HexDigit(hi)) == Some(hi);
      assert HexValue(HexDigit(lo)) == Some(lo);
      assert UnicodeEscape(t[2..6]) == Some(c);
      assert t[6..] == rest;
    } else {
      assert t[1..] == rest;
    }
  }

  /** JSON.stringify's output, read as a JavaScript literal, is the
      original string: `eval` of it yields exactly the text quoted. */
  lemma {:induction false} JsonReadsBack(s: string)
    ensures DoubleQuotedValue(JsonBody(s)) == Some(s)
    decreases |s|
  {
    if s != [] {
      JsonCharReadsBack(s[0], JsonBody(s[1..]));
      JsonReadsBack(s[1..]);
      assert [s[0]] + s[1..] == s;
    }
  }

  // ---------------------------------------------------------------------
  // Global replacement

  predicate OccursAt(s: string, pat: string, i: int) {
    0 <= i && i + |pat| <= |s| && s[i..i + |pat|] == pat
  }

  predicate Absent(s: string, pat: string) {
    forall i :: 0 <= i <= |s| ==> !OccursAt(s, pat, i)
  }

  /** Every occurrence of `pat`, found left to right without overlap,
      replaced by `rep` taken literally: what a replacement function
      returning `rep` does. */
  function ReplaceAll(s: string, pat: string, rep: string): string
    requires pat != []
    decreases |s|
  {
    if s == [] then []
    else if pat <= s then rep + ReplaceAll(s[|pat|..], pat, rep)
    else [s[0]] + ReplaceAll(s[1..], pat, rep)
  }

  /** ECMAScript's GetSubstitution for a pattern without capture groups:
      "$$" stands for "$", "$&" for the match, "$`" for the text before it
      and "$'" for the text after it; any other "$" is kept. */
  function Substitution(rep: string, matched: string, before: string, after: string): string
    decreases |rep|
  {
    if rep == [] then []
    else if rep[0] == '$' && |rep| >= 2 && rep[1] == '$' then "$" + Substitution(rep[2..], matched, before, after)
    else if rep[0] == '$' && |rep| >= 2 && rep[1] == '&' then matched + Substitution(rep[2..], matched, before, after)
    else if rep[0] == '$' && |rep| >= 2 && rep[1] == '`' then before + Substitution(rep[2..], matched, before, after)
    else if rep[0] == '$' && |rep| >= 2 && rep[1] == '\'' then after + Substitution(rep[2..], matched, before, after)
    else [rep[0]] + Substitution(rep[1..], matched, before, after)
  }

  /** The rest of `s.replace(/pat/g, rep)` once `before` has been read. */
  function JsReplaceFrom(before: string, rest: string, pat: string, rep: string): string
    requires pat != []
    decreases |rest|
  {
    if rest == [] then []
    else if pat <= rest then
      Substitution(rep, pat, before, rest[|pat|..]) + JsReplaceFrom(before + pat, rest[|pat|..], pat, rep)
    else [rest[0]] + JsReplaceFrom(before + [rest[0]], rest[1..], pat, rep)
  }

  /** `s.replace(new RegExp(escaped pat, 'g'), rep)` with a string `rep`:
      the pattern's metacharacters are escaped, so it matches `pat`
      literally, but `rep` is read through GetSubstitution. */
  function JsReplaceAll(s: string, pat: string, rep: string): string
    requires pat != []
  {
    JsReplaceFrom([], s, pat, rep)
  }

  /** Text without the pattern is left as it is. */
  lemma {:induction false} ReplaceAbsent(s: string, pat: string, rep: string)
    requires pat != [] && Absent(s, pat)
    ensures ReplaceAll(s, pat, rep) == s
    decreases |s|
  {
    if s != [] {
      assert !OccursAt(s, pat, 0);
      assert !(pat <= s);
      assert Absent(s[1..], pat) by {
        forall i | 0 <= i <= |s[1..]| ensures !OccursAt(s[1..], pat, i) {
          if OccursAt(s[1..], pat, i) {
            assert s[i + 1..i + 1 + |pat|] == s[1..][i..i + |pat|];
            assert OccursAt(s, pat, i + 1);
          }
        }
      }
      ReplaceAbsent(s[1..], pat, rep);
      assert [s[0]] + s[1..] == s;
    }
  }

  /** The first occurrence is replaced by exactly `rep`, and the text
      before it is kept. */
  lemma {:induction false} ReplaceFirst(x: string, pat: string, y: string, rep: string)
    requires pat != []
    requires forall i :: 0 <= i < |x| ==> !OccursAt(x + pat + y, pat, i)
    ensures ReplaceAll(x + pat + y, pat, rep) == x + rep + ReplaceAll(y, pat, rep)
    decreases |x|
  {
    var s := x + pat + y;
    if x == [] {
      assert s == pat + y;
      assert pat <= s;
      assert s[|pat|..] == y;
    } else {
      assert !OccursAt(s, pat, 0);
      assert !(pat <= s);
      assert s[1..] == x[1..] + pat + y;
      NoEarlierInTail(x, pat, y);
      ReplaceFirst(x[1..], pat, y, rep);
      assert [x[0]] + x[1..] == x;
    }
  }

  lemma NoEarlierInTail(x: string, pat: string, y: string)
    requires x != []
    requires forall i :: 0 <= i < |x| ==> !OccursAt(x + pat + y, pat, i)
    ensures forall i :: 0 <= i < |x[1..]| ==> !OccursAt(x[1..] + pat + y, pat, i)
  {
    var s := x + pat + y;
    assert s[1..] == x[1..] + pat + y;
    forall i | 0 <= i < |x[1..]| ensures !OccursAt(x[1..] + pat + y, pat, i) {
      assert 0 <= i + 1 < |x|;
      assert !OccursAt(x + pat + y, pat, i + 1);
      assert s[i + 1..i + 1 + |pat|] == s[1..][i..i + |pat|];
    }
  }

  lemma {:induction false} SubstitutionPlain(rep: string, matched: string, before: string, after: string)
    requires '$' !in rep
    ensures Substitution(rep, matched, before, after) == rep
    decreases |rep|
  {
    if rep != [] {
      assert rep[0] != '$';
      assert '$' !in rep[1..];
      SubstitutionPlain(rep[1..], matched, before, after);
    }
  }

  lemma {:induction false} JsReplaceFromPlain(before: string, rest: string, pat: string, rep: string)
    requires pat != [] && '$' !in rep
    ensures JsReplaceFrom(before, rest, pat, rep) == ReplaceAll(rest, pat, rep)
    decreases |rest|
  {
    if rest != [] {
      if pat <= rest {
        SubstitutionPlain(rep, pat, before, rest[|pat|..]);
        JsReplaceFromPlain(before + pat, rest[|pat|..], pat, rep);
      } else {
        JsReplaceFromPlain(before + [rest[0]], rest[1..], pat, rep);
      }
    }
  }

  /** With a replacement free of "$", JavaScript's replace is the literal
      replacement. */
  lemma JsReplacePlain(s: string, pat: string, rep: string)
    requires pat != [] && '$' !in rep
    ensures JsReplaceAll(s, pat, rep) == ReplaceAll(s, pat, rep)
  {
    JsReplaceFromPlain([], s, pat, rep);
  }

  /** Text without a backslash is its own doubling. */
  lemma {:induction false} NoBackslashes(s: string)
    requires '\\' !in s
    ensures DoubleBackslashes(s) == s
    decreases |s|
  {
    if s != [] {
      assert s[0] != '\\';
      assert '\\' !in s[1..];
      NoBackslashes(s[1..]);
      assert [s[0]] + s[1..] == s;
    }
  }

  /** A "$"-free start of a replacement is copied as it is. */
  lemma {:induction false} SubstitutionPrefix(a: string, b: string, matched: string, before: string, after: string)
    requires '$' !in a
    ensures Substitution(a + b, matched, before, after) == a + Substitution(b, matched, before, after)
    decreases |a|
  {
    if a == [] {
      assert a + b == b;
    } else {
      assert (a + b)[0] == a[0] != '$';
      assert (a + b)[1..] == a[1..] + b;
      assert '$' !in a[1..];
      SubstitutionPrefix(a[1..], b, matched, before, after);
      assert [a[0]] + a[1..] == a;
    }
  }

  /** JavaScript's replace leaves text without the pattern as it is,
      whatever the replacement. */
  lemma {:induction false} JsReplaceAbsent(before: string, rest: string, pat: string, rep: string)
    requires pat != [] && Absent(rest, pat)
    ensures JsReplaceFrom(before, rest, pat, rep) == rest
    decreases |rest|
  {
    if rest != [] {
      assert !OccursAt(rest, pat, 0);
      assert !(pat <= rest);
      assert Absent(rest[1..], pat) by {
        forall i | 0 <= i <= |rest[1..]| ensures !OccursAt(rest[1..], pat, i) {
          assert !OccursAt(rest, pat, i + 1);
          if i + |pat| <= |rest[1..]| {
            assert rest[i + 1..i + 1 + |pat|] == rest[1..][i..i + |pat|];
          }
        }
      }
      JsReplaceAbsent(before + [rest[0]], rest[1..], pat, rep);
      assert [rest[0]] + rest[1..] == rest;
    }
  }

  /** Replacing a whole text once: the replacement read with nothing
      before or after the match. */
  lemma JsReplaceWhole(s: string, rep: string)
    requires s != []
    ensures JsReplaceAll(s, s, rep) == Substitution(rep, s, [], [])
  {
    assert s <= s;
    assert s[|s|..] == [];
    assert JsReplaceFrom([], s, s, rep) ==
      Substitution(rep, s, [], s[|s|..]) + JsReplaceFrom([] + s, s[|s|..], s, rep);
  }

  /** "$$" in a replacement stands for one "$". */
  lemma SubstituteEscapedDollar(a: string, b: string, matched: string, before: string, after: string)
    requires '$' !in a && '$' !in b
    ensures Substitution(a + "$$" + b, matched, before, after) == a + "$" + b
  {
    assert a + "$$" + b == a + ("$$" + b);
    SubstitutionPrefix(a, "$$" + b, matched, before, after);
    assert ("$$" + b)[2..] == b;
    SubstitutionPlain(b, matched, before, after);
    assert a + ("$" + b) == a + "$" + b;
  }

  lemma FitsConcat(a: string, b: string)
    requires FitsSingleQuotes(a) && FitsSingleQuotes(b)
    ensures FitsSingleQuotes(a + b)
  {
    forall i | 0 <= i < |a + b| ensures (a + b)[i] != '\'' && !IsLineBreak((a + b)[i]) {
      if i >= |a| { assert (a + b)[i] == b[i - |a|]; }
    }
  }
}
