/**
 PHP's `addslashes` and `stripslashes` over strings, and what it takes for a
 text to sit inside a single-quoted SQL literal without ending it.
 */
module Slashes {

  /** The characters `addslashes` escapes: single quote, double quote, backslash and NUL. */
  predicate NeedsSlash(c: char) {
    c == '\'' || c == '"' || c == '\\' || c == '\0'
  }

  /** One character as `addslashes` writes it; NUL becomes a backslash followed by the digit zero. */
  function Escape(c: char): (r: string) {
    if c == '\0' then ['\\', '0']
    else if NeedsSlash(c) then ['\\', c]
    else [c]
  }

  function AddSlashes(s: string): (r: string)
    ensures |r| >= |s|
    ensures |r| == |s| <==> forall i :: 0 <= i < |s| ==> !NeedsSlash(s[i])
  {
    if |s| == 0 then []
    else
      var rest := AddSlashes(s[1..]);
      assert forall i :: 1 <= i < |s| ==> s[i] == s[1..][i - 1];
      Escape(s[0]) + rest
  }

  /** `stripslashes`: a backslash is dropped and the next character kept (`\0` gives NUL); a final lone backslash is dropped. */
  function StripSlashes(s: string): (r: string)
    ensures |r| <= |s|
  {
    if |s| == 0 then []
    else if s[0] == '\\' then
      if |s| == 1 then [] else [if s[1] == '0' then '\0' else s[1]] + StripSlashes(s[2..])
    else [s[0]] + StripSlashes(s[1..])
  }

  /**
   `s` can be placed between single quotes in SQL and the literal ends at the
   closing quote: every backslash escapes the character after it (MySQL's
   default reading of string literals), and no quote is left unescaped.
   */
  predicate IsLiteralBody(s: string) {
    if |s| == 0 then true
    else if s[0] == '\\' then |s| >= 2 && IsLiteralBody(s[2..])
    else s[0] != '\'' && IsLiteralBody(s[1..])
  }

  /** Escaping distributes over concatenation, so it works character by character. */
  lemma {:induction false} AddSlashesAppend(a: string, b: string)
    ensures AddSlashes(a + b) == AddSlashes(a) + AddSlashes(b)
  {
    if |a| == 0 {
      assert a + b == b;
    } else {
      assert (a + b)[1..] == a[1..] + b;
      AddSlashesAppend(a[1..], b);
    }
  }

  /**
   On a single character: the four special characters gain a backslash in
   front (NUL is written as the digit zero), every other character is kept.
   */
  lemma AddSlashesChar(c: char)
    ensures NeedsSlash(c) ==> AddSlashes([c]) == ['\\', if c == '\0' then '0' else c]
    ensures !NeedsSlash(c) ==> AddSlashes([c]) == [c]
  {
    assert [c][1..] == [];
  }

  /** A text without special characters is left as it is. */
  lemma {:induction false} AddSlashesPlain(s: string)
    requires forall i :: 0 <= i < |s| ==> !NeedsSlash(s[i])
    ensures AddSlashes(s) == s
  {
    if |s| > 0 {
      AddSlashesPlain(s[1..]);
    }
  }

  /** Removing the escapes gives back exactly the escaped text. */
  lemma {:induction false} StripAddSlashes(s: string)
    ensures StripSlashes(AddSlashes(s)) == s
  {
    if |s| > 0 {
      var e := Escape(s[0]);
      assert AddSlashes(s) == e + AddSlashes(s[1..]);
      StripAddSlashes(s[1..]);
      if NeedsSlash(s[0]) {
        assert (e + AddSlashes(s[1..]))[2..] == AddSlashes(s[1..]);
      } else {
        assert (e + AddSlashes(s[1..]))[1..] == AddSlashes(s[1..]);
      }
    }
  }

  /** An escaped text never ends the SQL literal it is placed in early. */
  lemma {:induction false} AddSlashesIsLiteralBody(s: string)
    ensures IsLiteralBody(AddSlashes(s))
  {
    if |s| > 0 {
      var e := Escape(s[0]);
      AddSlashesIsLiteralBody(s[1..]);
      if NeedsSlash(s[0]) {
        assert (e + AddSlashes(s[1..]))[2..] == AddSlashes(s[1..]);
      } else {
        assert (e + AddSlashes(s[1..]))[1..] == AddSlashes(s[1..]);
      }
    }
  }
}
