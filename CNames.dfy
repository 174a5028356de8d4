/**
 * Helpers that turn Python strings into pieces of C source
 * (pypy/translator/gensupp.py): the `C_IDENTIFIER` translation table and
 * `c_string`.
 */
module CNames {
  import opened Optional

  // ---------------------------------------------------------------------
  // `C_IDENTIFIER` and `str.translate`
  // ---------------------------------------------------------------------

  /** ASCII letters and digits: the characters the table keeps. */
  predicate IsAlnum(c: char) {
    '0' <= c <= '9' || 'a' <= c <= 'z' || 'A' <= c <= 'Z'
  }

  /** The characters a translated name is made of. */
  predicate IsIdentChar(c: char) {
    IsAlnum(c) || c == '_'
  }

  predicate IsIdentifier(s: string) {
    forall k :: 0 <= k < |s| ==> IsIdentChar(s[k])
  }

  /** The 256-entry table: entry `i` is `chr(i)` for a letter or digit, `_` otherwise. */
  function CIdentifier(): (table: string)
    ensures |table| == 256
    ensures forall i :: 0 <= i < 256 ==> IsIdentChar(table[i]) && (IsAlnum(i as char) ==> table[i] == i as char)
  {
    seq(256, i requires 0 <= i < 256 => if IsAlnum(i as char) then i as char else '_')
  }

  /** Looking one byte up in the table; characters beyond the table become `_`. */
  function TranslateChar(c: char): (t: char)
    ensures IsAlnum(c) ==> t == c
    ensures !IsAlnum(c) ==> t == '_'
  {
    if c as int < |CIdentifier()| then CIdentifier()[c as int] else '_'
  }

  /** `s.translate(C_IDENTIFIER)`. */
  function Translate(s: string): (t: string)
    ensures |t| == |s|
  {
    seq(|s|, k requires 0 <= k < |s| => TranslateChar(s[k]))
  }

  /** The table keeps letters and digits and replaces everything else by `_`. */
  lemma TranslateMaps(s: string, k: int)
    requires 0 <= k < |s|
    ensures IsAlnum(s[k]) ==> Translate(s)[k] == s[k]
    ensures !IsAlnum(s[k]) ==> Translate(s)[k] == '_'
  {
  }

  /** A translated name is a C identifier character string. */
  lemma TranslateIsIdentifier(s: string)
    ensures IsIdentifier(Translate(s))
  {
  }

  /** A string already made of identifier characters is left as it is. */
  lemma TranslateKeepsIdentifier(s: string)
    requires IsIdentifier(s)
    ensures Translate(s) == s
  {
  }

  /** Translating twice is translating once. */
  lemma TranslateIdempotent(s: string)
    ensures Translate(Translate(s)) == Translate(s)
  {
    TranslateIsIdentifier(s);
    TranslateKeepsIdentifier(Translate(s));
  }

  /** Translation commutes with concatenation. */
  lemma TranslateAppend(a: string, b: string)
    ensures Translate(a + b) == Translate(a) + Translate(b)
  {
  }

  // ---------------------------------------------------------------------
  // `c_string`
  // ---------------------------------------------------------------------

  /** `s.replace(c, r)` for a one-character pattern. */
  function Replace(s: string, c: char, r: string): (t: string)
    ensures c !in s ==> t == s
  {
    if s == [] then [] else (if s[0] == c then r else [s[0]]) + Replace(s[1..], c, r)
  }

  /** Replacing a character by itself changes nothing. */
  lemma {:induction false} ReplaceSelf(s: string, c: char)
    ensures Replace(s, c, [c]) == s
  {
    if s != [] {
      ReplaceSelf(s[1..], c);
      assert s == [s[0]] + s[1..];
    }
  }

  /**
   * `c_string(s)` as written: the second `replace` has `'\"'` as its
   * replacement, which in Python is the one-character string `"`, so it
   * replaces each double quote by itself.
   */
  function CString(s: string): (lit: string)
    ensures |lit| >= 2 && lit[0] == '"' && lit[|lit| - 1] == '"'
  {
    "\"" + Replace(Replace(s, '\\', "\\\\"), '"', "\"") + "\""
  }

  /** So `c_string` only doubles backslashes and leaves double quotes bare. */
  lemma CStringDoublesBackslashes(s: string)
    ensures CString(s) == "\"" + Replace(s, '\\', "\\\\") + "\""
  {
    ReplaceSelf(Replace(s, '\\', "\\\\"), '"');
  }

  /** `c_string` with double quotes escaped as well, as a C literal needs. */
  function EscapedCString(s: string): (lit: string)
    ensures |lit| >= 2 && lit[0] == '"' && lit[|lit| - 1] == '"'
  {
    "\"" + Replace(Replace(s, '\\', "\\\\"), '"', "\\\"") + "\""
  }

  function Prepend(c: char, rest: Option<string>): Option<string> {
    if rest.None? then None else Some([c] + rest.value)
  }

  /**
   * What a C compiler reads from the characters between the quotes of a
   * string literal, for the two escapes `\\` and `\"`: `None` when an
   * unescaped `"` ends the literal early or an escape is incomplete.
   */
  function Unescape(t: string): Option<string>
    decreases |t|
  {
    if t == [] then Some([])
    else if t[0] == '"' then None
    else if t[0] == '\\' then
      if |t| >= 2 && (t[1] == '\\' || t[1] == '"') then Prepend(t[1], Unescape(t[2..])) else None
    else Prepend(t[0], Unescape(t[1..]))
  }

  /** The string a C compiler reads from a whole literal `"..."`. */
  function Unquote(lit: string): Option<string> {
    if |lit| >= 2 && lit[0] == '"' && lit[|lit| - 1] == '"' then Unescape(lit[1..|lit| - 1]) else None
  }

  lemma {:induction false} UnescapeDoubled(s: string)
    ensures Unescape(Replace(s, '\\', "\\\\")) == if '"' in s then None else Some(s)
  {
    if s != [] {
      UnescapeDoubled(s[1..]);
      var t := Replace(s, '\\', "\\\\");
      var rest := Replace(s[1..], '\\', "\\\\");
      assert '"' in s <==> s[0] == '"' || '"' in s[1..];
      assert s == [s[0]] + s[1..];
      if s[0] == '\\' {
        assert t[2..] == rest;
      } else {
        assert t[1..] == rest;
      }
    }
  }

  lemma {:induction false} ReplaceAppend(a: string, b: string, c: char, r: string)
    ensures Replace(a + b, c, r) == Replace(a, c, r) + Replace(b, c, r)
  {
    if a != [] {
      ReplaceAppend(a[1..], b, c, r);
      assert (a + b)[0] == a[0];
      assert (a + b)[1..] == a[1..] + b;
      var head := if a[0] == c then r else [a[0]];
      assert Replace(a + b, c, r) == head + Replace(a[1..] + b, c, r);
      assert Replace(a, c, r) == head + Replace(a[1..], c, r);
    } else {
      assert a + b == b;
    }
  }

  /** Both replacements of `EscapedCString` on a single character. */
  lemma EscapeOne(ch: char)
    ensures Replace(Replace([ch], '\\', "\\\\"), '"', "\\\"") ==
            if ch == '\\' then "\\\\" else if ch == '"' then "\\\"" else [ch]
  {
    assert Replace([], '\\', "\\\\") == [];
    assert Replace([], '"', "\\\"") == [];
    if ch == '\\' {
      assert Replace("\\\\", '"', "\\\"") == "\\\\" by {
        assert "\\\\"[1..] == "\\";
        assert "\\"[1..] == [];
      }
    }
  }

  lemma {:induction false} UnescapeEscaped(s: string)
    ensures Unescape(Replace(Replace(s, '\\', "\\\\"), '"', "\\\"")) == Some(s)
  {
    if s != [] {
      UnescapeEscaped(s[1..]);
      var head := [s[0]];
      var rest := Replace(Replace(s[1..], '\\', "\\\\"), '"', "\\\"");
      var t := Replace(Replace(s, '\\', "\\\\"), '"', "\\\"");
      assert s == head + s[1..];
      ReplaceAppend(head, s[1..], '\\', "\\\\");
      ReplaceAppend(Replace(head, '\\', "\\\\"), Replace(s[1..], '\\', "\\\\"), '"', "\\\"");
      EscapeOne(s[0]);
      if s[0] == '\\' || s[0] == '"' {
        assert t == ['\\', s[0]] + rest;
        assert t[2..] == rest;
      } else {
        assert t == [s[0]] + rest;
        assert t[1..] == rest;
      }
    }
  }

  /**
   * As written, `c_string(s)` reads back as `s` exactly when `s` has no
   * double quote; a double quote in `s` ends the C literal early.
   */
  lemma CStringReadsBack(s: string)
    ensures Unquote(CString(s)) == if '"' in s then None else Some(s)
  {
    var lit := CString(s);
    CStringDoublesBackslashes(s);
    assert lit[1..|lit| - 1] == Replace(s, '\\', "\\\\");
    UnescapeDoubled(s);
  }

  /** The smallest input that shows it: `c_string('"')` is `"""`. */
  lemma CStringOfQuote()
    ensures CString("\"") == "\"\"\""
    ensures Unquote(CString("\"")) == None
  {
    CStringReadsBack("\"");
  }

  /** With quotes escaped, every string reads back as itself. */
  lemma EscapedCStringReadsBack(s: string)
    ensures Unquote(EscapedCString(s)) == Some(s)
  {
    var lit := EscapedCString(s);
    assert lit[1..|lit| - 1] == Replace(Replace(s, '\\', "\\\\"), '"', "\\\"");
    UnescapeEscaped(s);
  }
}
