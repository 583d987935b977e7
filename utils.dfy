/**
 * The identifier and string validators of the front end's utility library:
 * `validateFileId`, `sanitizeString` and `sanitizeUrlParam`.
 */
module Utils {
  import opened Common

  // ---------------------------------------------------------------------------
  // Character classes

  predicate IsAsciiLetter(c: char) { 'a' <= c <= 'z' || 'A' <= c <= 'Z' }

  predicate IsDigit(c: char) { '0' <= c <= '9' }

  /** The class `\w` of a JavaScript regular expression without the `u` flag. */
  predicate IsWordChar(c: char) { IsAsciiLetter(c) || IsDigit(c) || c == '_' }

  /** The class `[a-zA-Z0-9_.-]` shared by `validateFileId` and `sanitizeUrlParam`. */
  predicate IsSafeChar(c: char) { IsWordChar(c) || c == '.' || c == '-' }

  predicate AllSafe(s: string) { forall i :: 0 <= i < |s| ==> IsSafeChar(s[i]) }

  // ---------------------------------------------------------------------------
  // Substrings

  /** `s.includes(p)`: `p` occurs in `s` as a contiguous substring. */
  predicate Includes(s: string, p: string)
    decreases |s|
  {
    |p| <= |s| && (s[..|p|] == p || (|s| > 0 && Includes(s[1..], p)))
  }

  /** There are two adjacent dots at position `i`. */
  predicate DoubleDotAt(s: string, i: int) { 0 <= i < |s| - 1 && s[i] == '.' && s[i + 1] == '.' }

  predicate HasDoubleDot(s: string) { exists i | 0 <= i < |s| - 1 :: DoubleDotAt(s, i) }

  lemma {:induction false} IncludesSingle(s: string, c: char)
    ensures Includes(s, [c]) <==> c in s
    decreases |s|
  {
    if |s| > 0 {
      IncludesSingle(s[1..], c);
      assert s == [s[0]] + s[1..];
    }
  }

  lemma {:induction false} IncludesDoubleDot(s: string)
    ensures Includes(s, "..") <==> HasDoubleDot(s)
    decreases |s|
  {
    if |s| >= 2 {
      var t := s[1..];
      IncludesDoubleDot(t);
      if s[..2] == ".." {
        assert DoubleDotAt(s, 0);
      } else {
        assert Includes(s, "..") <==> Includes(t, "..");
        if HasDoubleDot(t) {
          var i :| 0 <= i < |t| - 1 && DoubleDotAt(t, i);
          assert t[i] == s[i + 1] && t[i + 1] == s[i + 2];
          assert DoubleDotAt(s, i + 1);
        }
        if HasDoubleDot(s) {
          var i :| 0 <= i < |s| - 1 && DoubleDotAt(s, i);
          assert i != 0;
          assert t[i - 1] == s[i] && t[i] == s[i + 1];
          assert DoubleDotAt(t, i - 1);
        }
      }
    } else if |s| == 1 {
      assert !Includes(s[1..], "..");
      assert !DoubleDotAt(s, 0);
    }
  }

  // ---------------------------------------------------------------------------
  // validateFileId

  /** The blacklist of substrings, in the order the source lists them. */
  const DangerousPatterns: seq<string> :=
    ["..", "/", "\\", "%", "<", ">", "\"", "'", "&", ";", "|", "`", "$"]

  /** `patterns.some(p => s.includes(p))` */
  predicate SomeIncluded(s: string, patterns: seq<string>)
  {
    exists p :: p in patterns && Includes(s, p)
  }

  /** The regular expression `/^[a-zA-Z0-9_.-]+$/`. */
  predicate SafePattern(s: string) { |s| >= 1 && AllSafe(s) }

  /**
   * Of the blacklist, only `".."` can occur in a string the safe pattern accepts:
   * every other entry is a single character outside the allowed class.
   */
  lemma SafeStringDangerous(s: string)
    ensures AllSafe(s) ==> (SomeIncluded(s, DangerousPatterns) <==> HasDoubleDot(s))
  {
    IncludesDoubleDot(s);
    if AllSafe(s) {
      forall i | 1 <= i < |DangerousPatterns|
        ensures !Includes(s, DangerousPatterns[i])
      {
        var p := DangerousPatterns[i];
        DangerousSingle(i);
        assert p == [p[0]];
        IncludesSingle(s, p[0]);
      }
      assert DangerousPatterns[0] == "..";
    }
  }

  /** Every entry of the blacklist after `".."` is one character outside the safe class. */
  lemma DangerousSingle(i: int)
    requires 1 <= i < |DangerousPatterns|
    ensures |DangerousPatterns[i]| == 1 && !IsSafeChar(DangerousPatterns[i][0])
  {
  }

  /**
   * `validateFileId`: rejects null and the empty string, then the length bound
   * 1..100, then demands the safe character class and the absence of every
   * blacklisted substring. The identifiers it accepts are exactly the safe
   * strings of 1 to 100 characters without two adjacent dots.
   */
  function ValidateFileId(fileId: Option<string>): (ok: bool)
    ensures ok <==> fileId.Some? && 1 <= |fileId.value| <= 100
                    && AllSafe(fileId.value) && !HasDoubleDot(fileId.value)
  {
    if fileId.None? || fileId.value == "" then false
    else
      var id := fileId.value;
      if |id| < 1 || |id| > 100 then false
      else
        SafeStringDangerous(id);
        SafePattern(id) && !SomeIncluded(id, DangerousPatterns)
  }

  // ---------------------------------------------------------------------------
  // sanitizeString

  /** The five characters `sanitizeString` replaces. */
  predicate IsEscaped(c: char) { c == '<' || c == '>' || c == '"' || c == '\'' || c == '&' }

  /** The replacement table, applied to one character. */
  function Escape(c: char): (r: string)
    ensures !IsEscaped(c) <==> r == [c]
    ensures |r| >= 1
    ensures NoMarkup(r)
  {
    if c == '<' then "&lt;"
    else if c == '>' then "&gt;"
    else if c == '"' then "&quot;"
    else if c == '\'' then "&#39;"
    else if c == '&' then "&amp;"
    else [c]
  }

  /** None of `<`, `>`, `"`, `'` occurs: what makes the output inert in HTML. */
  predicate NoMarkup(s: string)
  {
    forall i :: 0 <= i < |s| ==> s[i] != '<' && s[i] != '>' && s[i] != '"' && s[i] != '\''
  }

  lemma NoMarkupConcat(a: string, b: string)
    requires NoMarkup(a) && NoMarkup(b)
    ensures NoMarkup(a + b)
  {
    forall i | 0 <= i < |a + b|
      ensures (a + b)[i] != '<' && (a + b)[i] != '>' && (a + b)[i] != '"' && (a + b)[i] != '\''
    {
      if i < |a| { assert (a + b)[i] == a[i]; } else { assert (a + b)[i] == b[i - |a|]; }
    }
  }

  /**
   * `sanitizeString`: every one of `< > " ' &` becomes its entity, every other
   * character stays. The output is never shorter, empty only for the empty
   * input, free of markup characters, and equal to the input when the input has
   * nothing to escape.
   */
  function SanitizeString(str: string): (r: string)
    ensures |r| >= |str|
    ensures r == [] <==> str == []
    ensures NoMarkup(r)
    decreases |str|
  {
    if str == [] then []
    else
      var head := Escape(str[0]);
      var tail := SanitizeString(str[1..]);
      NoMarkupConcat(head, tail);
      head + tail
  }

  /** A string with nothing to escape comes out unchanged. */
  lemma {:induction false} SanitizeStringPlain(s: string)
    requires forall i :: 0 <= i < |s| ==> !IsEscaped(s[i])
    ensures SanitizeString(s) == s
    decreases |s|
  {
    if s != [] {
      assert !IsEscaped(s[0]);
      SanitizeStringPlain(s[1..]);
      assert [s[0]] + s[1..] == s;
    }
  }

  lemma SanitizeStringCons(c: char, s: string)
    ensures SanitizeString([c] + s) == Escape(c) + SanitizeString(s)
  {
    assert ([c] + s)[0] == c && ([c] + s)[1..] == s;
  }

  /** Escaping is applied character by character: it distributes over concatenation. */
  lemma {:induction false} SanitizeStringConcat(a: string, b: string)
    ensures SanitizeString(a + b) == SanitizeString(a) + SanitizeString(b)
    decreases |a|
  {
    if a == [] {
      assert a + b == b;
    } else {
      var c, t := a[0], a[1..];
      calc {
        SanitizeString(a + b);
        == { assert a + b == [c] + (t + b); SanitizeStringCons(c, t + b); }
        Escape(c) + SanitizeString(t + b);
        == { SanitizeStringConcat(t, b); }
        Escape(c) + (SanitizeString(t) + SanitizeString(b));
        ==
        (Escape(c) + SanitizeString(t)) + SanitizeString(b);
        == { assert a == [c] + t; SanitizeStringCons(c, t); }
        SanitizeString(a) + SanitizeString(b);
      }
    }
  }

  /** Decoding of the five entities; the inverse that shows escaping loses nothing. */
  function Unescape(s: string): string
    decreases |s|
  {
    if s == [] then []
    else if |s| >= 4 && s[..4] == "&lt;" then ['<'] + Unescape(s[4..])
    else if |s| >= 4 && s[..4] == "&gt;" then ['>'] + Unescape(s[4..])
    else if |s| >= 6 && s[..6] == "&quot;" then ['"'] + Unescape(s[6..])
    else if |s| >= 5 && s[..5] == "&#39;" then ['\''] + Unescape(s[5..])
    else if |s| >= 5 && s[..5] == "&amp;" then ['&'] + Unescape(s[5..])
    else [s[0]] + Unescape(s[1..])
  }

  lemma UnescapeLt(rest: string)
    ensures Unescape("&lt;" + rest) == ['<'] + Unescape(rest)
  {
    var e := "&lt;" + rest;
    assert e[..4] == "&lt;" && e[4..] == rest;
  }

  lemma UnescapeGt(rest: string)
    ensures Unescape("&gt;" + rest) == ['>'] + Unescape(rest)
  {
    var e := "&gt;" + rest;
    assert e[..4] == "&gt;" && e[4..] == rest;
  }

  lemma UnescapeQuot(rest: string)
    ensures Unescape("&quot;" + rest) == ['"'] + Unescape(rest)
  {
    var e := "&quot;" + rest;
    assert e[..4][1] == 'q';
    assert e[..6] == "&quot;" && e[6..] == rest;
  }

  lemma UnescapeApos(rest: string)
    ensures Unescape("&#39;" + rest) == ['\''] + Unescape(rest)
  {
    var e := "&#39;" + rest;
    assert e[..4][1] == '#';
    assert |e| < 6 || e[..6][1] == '#';
    assert e[..5] == "&#39;" && e[5..] == rest;
  }

  lemma UnescapeAmp(rest: string)
    ensures Unescape("&amp;" + rest) == ['&'] + Unescape(rest)
  {
    var e := "&amp;" + rest;
    assert e[..4][1] == 'a' && e[..5][1] == 'a';
    assert |e| < 6 || e[..6][1] == 'a';
    assert e[..5] == "&amp;" && e[5..] == rest;
  }

  lemma UnescapePlain(c: char, rest: string)
    requires c != '&'
    ensures Unescape([c] + rest) == [c] + Unescape(rest)
  {
    var e := [c] + rest;
    assert e[0] == c && e[1..] == rest;
    assert |e| < 4 || e[..4][0] == c;
    assert |e| < 5 || e[..5][0] == c;
    assert |e| < 6 || e[..6][0] == c;
  }

  lemma UnescapeEscape(c: char, rest: string)
    ensures Unescape(Escape(c) + rest) == [c] + Unescape(rest)
  {
    if c == '<' {
      UnescapeLt(rest);
    } else if c == '>' {
      UnescapeGt(rest);
    } else if c == '"' {
      UnescapeQuot(rest);
    } else if c == '\'' {
      UnescapeApos(rest);
    } else if c == '&' {
      UnescapeAmp(rest);
    } else {
      UnescapePlain(c, rest);
    }
  }

  /** Round trip: decoding the escaped string gives back the original. */
  lemma {:induction false} SanitizeStringRoundTrip(s: string)
    ensures Unescape(SanitizeString(s)) == s
    decreases |s|
  {
    if s != [] {
      SanitizeStringRoundTrip(s[1..]);
      UnescapeEscape(s[0], SanitizeString(s[1..]));
      assert s == [s[0]] + s[1..];
    }
  }

  // ---------------------------------------------------------------------------
  // sanitizeUrlParam

  /** `param.replace(/[^a-zA-Z0-9._-]/g, '')`: keeps exactly the safe characters. */
  function SanitizeUrlParam(param: string): (r: string)
    ensures AllSafe(r)
    ensures |r| <= |param|
    decreases |param|
  {
    if param == [] then []
    else if IsSafeChar(param[0]) then [param[0]] + SanitizeUrlParam(param[1..])
    else SanitizeUrlParam(param[1..])
  }

  /** On one character the filter keeps it exactly when it is safe. */
  lemma SanitizeUrlParamChar(c: char)
    ensures SanitizeUrlParam([c]) == if IsSafeChar(c) then [c] else []
  {
    assert [c][1..] == [];
  }

  /** The filter works character by character: it distributes over concatenation. */
  lemma {:induction false} SanitizeUrlParamConcat(a: string, b: string)
    ensures SanitizeUrlParam(a + b) == SanitizeUrlParam(a) + SanitizeUrlParam(b)
    decreases |a|
  {
    if a == [] {
      assert a + b == b;
    } else {
      var head := if IsSafeChar(a[0]) then [a[0]] else [];
      calc {
        SanitizeUrlParam(a + b);
        == { assert (a + b)[0] == a[0] && (a + b)[1..] == a[1..] + b; }
        head + SanitizeUrlParam(a[1..] + b);
        == { SanitizeUrlParamConcat(a[1..], b); }
        head + (SanitizeUrlParam(a[1..]) + SanitizeUrlParam(b));
        ==
        (head + SanitizeUrlParam(a[1..])) + SanitizeUrlParam(b);
      }
    }
  }

  /** `a` is obtained from `b` by deleting characters. */
  predicate IsSubsequence(a: string, b: string)
    decreases |b|
  {
    a == [] || (b != [] && if a[0] == b[0] then IsSubsequence(a[1..], b[1..]) else IsSubsequence(a, b[1..]))
  }

  lemma {:induction false} SanitizeUrlParamSubsequence(param: string)
    ensures IsSubsequence(SanitizeUrlParam(param), param)
    decreases |param|
  {
    if param != [] {
      SanitizeUrlParamSubsequence(param[1..]);
      var r := SanitizeUrlParam(param[1..]);
      if IsSafeChar(param[0]) {
        assert ([param[0]] + r)[1..] == r;
      } else if r != [] {
        // the kept characters are safe, so none of them is matched against the dropped one
        assert IsSafeChar(r[0]) && r[0] != param[0];
      }
    }
  }

  /** `sanitizeUrlParam` leaves a string unchanged exactly when it is all safe characters. */
  lemma {:induction false} SanitizeUrlParamFixedPoint(param: string)
    ensures SanitizeUrlParam(param) == param <==> AllSafe(param)
    decreases |param|
  {
    if param != [] {
      SanitizeUrlParamFixedPoint(param[1..]);
      if !IsSafeChar(param[0]) {
        assert |SanitizeUrlParam(param)| < |param|;
      } else if AllSafe(param) {
        assert AllSafe(param[1..]);
      }
    }
  }

  lemma SanitizeUrlParamIdempotent(param: string)
    ensures SanitizeUrlParam(SanitizeUrlParam(param)) == SanitizeUrlParam(param)
  {
    SanitizeUrlParamFixedPoint(SanitizeUrlParam(param));
  }

  /** Every identifier `validateFileId` accepts passes `sanitizeUrlParam` unchanged. */
  lemma ValidFileIdIsSanitized(s: string)
    requires ValidateFileId(Some(s))
    ensures SanitizeUrlParam(s) == s
  {
    SanitizeUrlParamFixedPoint(s);
  }
}
