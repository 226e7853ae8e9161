/** The string operations the handlers and validators rely on: JavaScript's
    `trim`, `toUpperCase`, `startsWith` and string-pattern `replace`. */
module Text {
  import opened Http

  /** The characters ECMAScript's `\s` and `String.prototype.trim` treat as
      white space: the WhiteSpace and LineTerminator productions. */
  predicate IsWhitespace(c: char)
  {
    || c == ' ' || c == '\t' || c == '\n' || c == '\r'
    || c == '\U{000B}' || c == '\U{000C}' || c == '\U{00A0}' || c == '\U{FEFF}'
    || c == '\U{1680}' || ('\U{2000}' <= c <= '\U{200A}')
    || c == '\U{2028}' || c == '\U{2029}' || c == '\U{202F}' || c == '\U{205F}'
    || c == '\U{3000}'
  }

  predicate AllWhitespace(s: string)
  {
    forall i :: 0 <= i < |s| ==> IsWhitespace(s[i])
  }

  /** Neither end of `s` is white space. */
  predicate Trimmed(s: string)
  {
    |s| == 0 || (!IsWhitespace(s[0]) && !IsWhitespace(s[|s| - 1]))
  }

  /** `r` is `s` without its leading white space: a suffix of `s`, preceded
      only by white space and not starting with any. */
  predicate LeadingRemoved(s: string, r: string)
  {
    && |r| <= |s| && r == s[|s| - |r|..]
    && AllWhitespace(s[..|s| - |r|])
    && (|r| == 0 || !IsWhitespace(r[0]))
  }

  /** `r` is `s` without its trailing white space: a prefix of `s`, followed
      only by white space and not ending with any. */
  predicate TrailingRemoved(s: string, r: string)
  {
    && |r| <= |s| && r == s[..|r|]
    && AllWhitespace(s[|r|..])
    && (|r| == 0 || !IsWhitespace(r[|r| - 1]))
  }

  /** `s` with its leading white space removed. */
  function TrimStart(s: string): (r: string)
    ensures LeadingRemoved(s, r)
    decreases |s|
  {
    if |s| > 0 && IsWhitespace(s[0]) then
      var r := TrimStart(s[1..]);
      assert s[1..][..|s[1..]| - |r|] == s[1..|s| - |r|];
      r
    else
      s
  }

  /** `s` with its trailing white space removed. */
  function TrimEnd(s: string): (r: string)
    ensures TrailingRemoved(s, r)
    decreases |s|
  {
    if |s| > 0 && IsWhitespace(s[|s| - 1]) then
      var r := TrimEnd(s[..|s| - 1]);
      assert s[..|s| - 1][|r|..] == s[|r|..|s| - 1];
      r
    else
      s
  }

  /** `r` is the part of `s` starting at `i` with only white space around it. */
  predicate BlankPadded(s: string, r: string, i: int)
  {
    0 <= i <= |s| - |r| && r == s[i..i + |r|] && AllWhitespace(s[..i]) && AllWhitespace(s[i + |r|..])
  }

  /** JavaScript's `s.trim()`: `s` without its leading and its trailing
      white space. `TrimIsPaddedSlice` states which slice of `s` that is. */
  function Trim(s: string): (r: string)
    ensures Trimmed(r)
    ensures |r| <= |s|
  {
    var t := TrimStart(s);
    var r := TrimEnd(t);
    TrimIsSlice(s, t, r);
    r
  }

  /** The result of `trim` is a slice of its input with only white space on
      either side of it. */
  lemma TrimIsPaddedSlice(s: string)
    ensures exists i :: BlankPadded(s, Trim(s), i)
  {
    var t := TrimStart(s);
    TrimIsSlice(s, t, TrimEnd(t));
    assert Trim(s) == TrimEnd(t);
    assert BlankPadded(s, Trim(s), |s| - |t|);
  }

  /** Removing white space from the front and then from the back leaves the
      slice that starts where the leading white space ends. */
  lemma TrimIsSlice(s: string, t: string, r: string)
    requires LeadingRemoved(s, t) && TrailingRemoved(t, r)
    ensures Trimmed(r)
    ensures BlankPadded(s, r, |s| - |t|)
  {
    var i := |s| - |t|;
    assert |r| > 0 ==> r[0] == t[0];
    assert r == s[i..i + |r|];
    assert t[|r|..] == s[i + |r|..];
  }

  /** A character outside the Basic Multilingual Plane: JavaScript stores it
      as a surrogate pair, two UTF-16 code units. */
  predicate Astral(c: char)
  {
    c as int > 0xFFFF
  }

  /** JavaScript's `s.length`: the number of UTF-16 code units, one for each
      character of the Basic Multilingual Plane and two for any other. */
  function Utf16Length(s: string): (n: nat)
    ensures |s| <= n <= 2 * |s|
  {
    if |s| == 0 then 0 else (if Astral(s[0]) then 2 else 1) + Utf16Length(s[1..])
  }

  /** The code-unit length of a concatenation is the sum of the lengths. */
  lemma {:induction false} Utf16LengthAppend(a: string, b: string)
    ensures Utf16Length(a + b) == Utf16Length(a) + Utf16Length(b)
    decreases |a|
  {
    if |a| == 0 {
      assert a + b == b;
    } else {
      assert (a + b)[0] == a[0];
      assert (a + b)[1..] == a[1..] + b;
      Utf16LengthAppend(a[1..], b);
    }
  }

  /** A string within the Basic Multilingual Plane has one code unit per
      character, and each character outside it adds one more. */
  lemma {:induction false} Utf16LengthBmp(s: string)
    ensures (forall i :: 0 <= i < |s| ==> !Astral(s[i])) <==> Utf16Length(s) == |s|
    decreases |s|
  {
    if |s| > 0 {
      Utf16LengthBmp(s[1..]);
      if !Astral(s[0]) {
        forall i | 0 <= i < |s[1..]|
          ensures s[1..][i] == s[i + 1]
        {
        }
        if Utf16Length(s) == |s| {
          forall i | 0 <= i < |s|
            ensures !Astral(s[i])
          {
            if i > 0 {
              assert s[i] == s[1..][i - 1];
            }
          }
        }
      }
    }
  }

  /** Trimming a string that is already trimmed changes nothing, so `trim` is
      idempotent. */
  lemma TrimIdempotent(s: string)
    ensures Trim(Trim(s)) == Trim(s)
  {
    TrimmedIsFixed(Trim(s));
  }

  lemma TrimmedIsFixed(s: string)
    requires Trimmed(s)
    ensures Trim(s) == s
  {
  }

  lemma {:induction false} TrimStartPadded(pad: string, u: string)
    requires AllWhitespace(pad) && |u| > 0 && !IsWhitespace(u[0])
    ensures TrimStart(pad + u) == u
    decreases |pad|
  {
    if |pad| == 0 {
      assert pad + u == u;
    } else {
      assert (pad + u)[1..] == pad[1..] + u;
      TrimStartPadded(pad[1..], u);
    }
  }

  lemma {:induction false} TrimEndPadded(u: string, pad: string)
    requires AllWhitespace(pad) && |u| > 0 && !IsWhitespace(u[|u| - 1])
    ensures TrimEnd(u + pad) == u
    decreases |pad|
  {
    if |pad| == 0 {
      assert u + pad == u;
    } else {
      assert (u + pad)[..|u + pad| - 1] == u + pad[..|pad| - 1];
      TrimEndPadded(u, pad[..|pad| - 1]);
    }
  }

  /** Blanks around a trimmed, non-empty string are exactly what `trim`
      removes. */
  lemma TrimPadded(t: string, pad: string)
    requires Trimmed(t) && |t| > 0 && AllWhitespace(pad)
    ensures Trim(pad + t + pad) == t
  {
    assert pad + t + pad == pad + (t + pad);
    assert (t + pad)[0] == t[0];
    TrimStartPadded(pad, t + pad);
    TrimEndPadded(t, pad);
  }

  /** A string of white space alone trims to the empty string, and a string
      with any other character does not. */
  lemma TrimEmptyIff(s: string)
    ensures Trim(s) == "" <==> AllWhitespace(s)
  {
    var t := TrimStart(s);
    var n := |s| - |t|;
    if Trim(s) == "" {
      assert AllWhitespace(t[0..]);
      forall k | 0 <= k < |s|
        ensures IsWhitespace(s[k])
      {
        if k < n {
          assert s[..n][k] == s[k];
        }
      }
    }
  }

  /** Upper-casing of one character: the ASCII letters, plus the two
      non-ASCII letters whose upper case is an ASCII letter (dotless i and
      long s). Every other character is kept. */
  function UpperChar(c: char): char
  {
    if 'a' <= c <= 'z' then (c as int - 32) as char
    else if c == '\U{0131}' then 'I'
    else if c == '\U{017F}' then 'S'
    else c
  }

  /** The characters that upper-case to a class-code character. */
  lemma UpperCharToCode(c: char)
    ensures IsCodeChar(UpperChar(c)) <==>
      IsCodeChar(c) || ('a' <= c <= 'z') || c == '\U{0131}' || c == '\U{017F}'
  {
  }

  /** `s.toUpperCase()` restricted to the one-to-one mappings of UpperChar. */
  function ToUpper(s: string): (r: string)
    ensures |r| == |s|
    ensures forall i :: 0 <= i < |s| ==> r[i] == UpperChar(s[i])
  {
    seq(|s|, i requires 0 <= i < |s| => UpperChar(s[i]))
  }

  /** A class code: six characters drawn from `[A-Z0-9]`. */
  predicate IsCodeChar(c: char)
  {
    ('A' <= c <= 'Z') || ('0' <= c <= '9')
  }

  predicate IsClassCode(s: string)
  {
    |s| == 6 && forall i :: 0 <= i < |s| ==> IsCodeChar(s[i])
  }

  /** Upper-casing leaves a class code as it is and is idempotent, so the
      exact code and any differently-cased spelling of it name the same
      class. */
  lemma ToUpperFixesCodes(s: string)
    requires IsClassCode(s)
    ensures ToUpper(s) == s
  {
    assert forall i :: 0 <= i < |s| ==> ToUpper(s)[i] == s[i];
  }

  lemma ToUpperIdempotent(s: string)
    ensures ToUpper(ToUpper(s)) == ToUpper(s)
  {
    assert forall i :: 0 <= i < |s| ==> ToUpper(ToUpper(s))[i] == ToUpper(s)[i];
  }

  /** A string body field is truthy when present and non-empty. */
  predicate Truthy(s: Option<string>)
  {
    s.Some? && s.value != ""
  }

  predicate StartsWith(s: string, prefix: string)
  {
    |prefix| <= |s| && s[..|prefix|] == prefix
  }

  predicate OccursAt(s: string, pat: string, j: int)
  {
    0 <= j && j + |pat| <= |s| && s[j..j + |pat|] == pat
  }

  /** The first position at or after `from` where `pat` occurs in `s`. */
  function IndexOfFrom(s: string, pat: string, from: nat): (r: Option<nat>)
    ensures r.Some? ==> from <= r.value && OccursAt(s, pat, r.value)
    ensures r.Some? ==> forall j :: from <= j < r.value ==> !OccursAt(s, pat, j)
    ensures r.None? ==> forall j :: from <= j ==> !OccursAt(s, pat, j)
    decreases |s| - from
  {
    if from + |pat| > |s| then None
    else if s[from..from + |pat|] == pat then Some(from)
    else IndexOfFrom(s, pat, from + 1)
  }

  /** JavaScript's `s.replace(pat, rep)` with a string pattern: only the first
      occurrence is replaced. */
  function ReplaceFirst(s: string, pat: string, rep: string): (r: string)
    ensures (forall j :: !OccursAt(s, pat, j)) ==> r == s
    ensures forall k :: OccursAt(s, pat, k) && (forall j :: 0 <= j < k ==> !OccursAt(s, pat, j)) ==>
      r == s[..k] + rep + s[k + |pat|..]
  {
    match IndexOfFrom(s, pat, 0)
    case None => s
    case Some(k) => s[..k] + rep + s[k + |pat|..]
  }

  /** When `s` starts with `pat`, removing the first occurrence of `pat`
      removes exactly that prefix. */
  lemma ReplacePrefix(s: string, pat: string)
    requires StartsWith(s, pat)
    ensures ReplaceFirst(s, pat, "") == s[|pat|..]
  {
    assert OccursAt(s, pat, 0);
  }
}
