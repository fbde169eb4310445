/** Whitespace trimming as JavaScript's `String.prototype.trim` performs it,
    which the comment form and the search box use to decide whether an
    input counts as filled in. */
module Text {

  /** The characters `trim` strips: ECMAScript WhiteSpace (tab, vertical tab,
      form feed, space, no-break space, byte order mark and the Unicode space
      separators) and LineTerminator (line feed, carriage return, the line and
      paragraph separators). */
  const Whitespace: set<char> := {
    '\t', '\n', '\U{B}', '\U{C}', '\r', ' ', '\U{A0}', '\U{1680}',
    '\U{2000}', '\U{2001}', '\U{2002}', '\U{2003}', '\U{2004}', '\U{2005}',
    '\U{2006}', '\U{2007}', '\U{2008}', '\U{2009}', '\U{200A}',
    '\U{2028}', '\U{2029}', '\U{202F}', '\U{205F}', '\U{3000}', '\U{FEFF}'
  }

  predicate IsSpace(c: char)
  {
    c in Whitespace
  }

  /** Every character of `s` is whitespace (vacuously true of ""). */
  predicate AllSpace(s: string)
  {
    forall i :: 0 <= i < |s| ==> IsSpace(s[i])
  }

  /** `s` with its leading whitespace removed (`LeadingSpace` says what is
      removed and what is left). */
  function TrimStart(s: string): (r: string)
    ensures |r| <= |s|
  {
    if |s| > 0 && IsSpace(s[0]) then TrimStart(s[1..]) else s
  }

  /** `s` with its trailing whitespace removed (`TrailingSpace` says what is
      removed and what is left). */
  function TrimEnd(s: string): (r: string)
    ensures |r| <= |s|
  {
    if |s| > 0 && IsSpace(s[|s| - 1]) then TrimEnd(s[..|s| - 1]) else s
  }

  /** `s.trim()`. */
  function Trim(s: string): string
  {
    TrimEnd(TrimStart(s))
  }

  /** `!s.trim()`: the input is empty once trimmed. */
  predicate Blank(s: string)
  {
    Trim(s) == []
  }

  /** Where the trimmed string starts in `s`. */
  function Lead(s: string): nat
  {
    |s| - |TrimStart(s)|
  }

  /** `TrimStart` removes a run of whitespace and stops at the first other
      character: what is left is the suffix of `s` from `Lead(s)` on. */
  lemma {:induction false} LeadingSpace(s: string)
    ensures TrimStart(s) == s[Lead(s)..]
    ensures AllSpace(s[..Lead(s)])
    ensures TrimStart(s) == [] || !IsSpace(TrimStart(s)[0])
    decreases |s|
  {
    if |s| > 0 && IsSpace(s[0]) {
      LeadingSpace(s[1..]);
      assert s[1..][Lead(s[1..])..] == s[Lead(s)..];
      assert s[..Lead(s)] == [s[0]] + s[1..][..Lead(s[1..])];
    }
  }

  /** `TrimEnd` removes a run of whitespace and stops at the last other
      character: what is left is a prefix of `s`. */
  lemma {:induction false} TrailingSpace(s: string)
    ensures TrimEnd(s) == s[..|TrimEnd(s)|]
    ensures AllSpace(s[|TrimEnd(s)|..])
    ensures TrimEnd(s) == [] || !IsSpace(TrimEnd(s)[|TrimEnd(s)| - 1])
    decreases |s|
  {
    if |s| > 0 && IsSpace(s[|s| - 1]) {
      var r := TrimEnd(s[..|s| - 1]);
      TrailingSpace(s[..|s| - 1]);
      assert s[..|s| - 1][..|r|] == s[..|r|];
      assert s[|r|..] == s[..|s| - 1][|r|..] + [s[|s| - 1]];
    }
  }

  /** The trimmed string is the slice of `s` between a run of leading and a
      run of trailing whitespace, and neither of its ends is whitespace. */
  lemma TrimIsCore(s: string)
    ensures Lead(s) + |Trim(s)| <= |s|
    ensures Trim(s) == s[Lead(s)..Lead(s) + |Trim(s)|]
    ensures AllSpace(s[..Lead(s)]) && AllSpace(s[Lead(s) + |Trim(s)|..])
    ensures Trim(s) == [] || (!IsSpace(Trim(s)[0]) && !IsSpace(Trim(s)[|Trim(s)| - 1]))
  {
    LeadingSpace(s);
    TrimSlice(s);
    TrimTrailer(s);
    TrimEnds(s);
  }

  lemma TrimSlice(s: string)
    ensures Lead(s) + |Trim(s)| <= |s|
    ensures Trim(s) == s[Lead(s)..Lead(s) + |Trim(s)|]
  {
    var t := TrimStart(s);
    var r := TrimEnd(t);
    LeadingSpace(s);
    TrailingSpace(t);
    SliceOfSuffix(s, Lead(s), |r|);
  }

  lemma SliceOfSuffix(s: string, a: nat, n: nat)
    requires a + n <= |s|
    ensures s[a..][..n] == s[a..a + n]
  {
  }

  lemma TrimTrailer(s: string)
    ensures Lead(s) + |Trim(s)| <= |s|
    ensures AllSpace(s[Lead(s) + |Trim(s)|..])
  {
    var t := TrimStart(s);
    var r := TrimEnd(t);
    LeadingSpace(s);
    TrailingSpace(t);
    assert t[|r|..] == s[Lead(s) + |r|..];
  }

  lemma TrimEnds(s: string)
    ensures Trim(s) == [] || (!IsSpace(Trim(s)[0]) && !IsSpace(Trim(s)[|Trim(s)| - 1]))
  {
    var t := TrimStart(s);
    var r := TrimEnd(t);
    LeadingSpace(s);
    TrailingSpace(t);
    if r != [] {
      assert r[0] == t[0];
    }
  }

  /** Trimming removes exactly the all-whitespace inputs: a string is blank
      if and only if every one of its characters is whitespace. */
  lemma BlankIffAllSpace(s: string)
    ensures Blank(s) <==> AllSpace(s)
  {
    var t := TrimStart(s);
    LeadingSpace(s);
    TrailingSpace(t);
    if Blank(s) {
      assert t[0..] == t;
      assert s == s[..Lead(s)] + t;
    } else {
      TrimEnds(s);
      assert Trim(s)[0] == t[0] == s[Lead(s)];
    }
  }

  /** JavaScript's `length`: the number of UTF-16 code units, one for a
      character of the Basic Multilingual Plane and two (a surrogate pair)
      for any other. */
  function Utf16Length(s: string): (n: nat)
    ensures |s| <= n <= 2 * |s|
  {
    if s == [] then 0 else CodeUnits(s[0]) + Utf16Length(s[1..])
  }

  function CodeUnits(c: char): nat
  {
    if c as int > 0xFFFF then 2 else 1
  }

  /** The two lengths agree exactly on strings of the Basic Multilingual
      Plane. */
  lemma {:induction false} Utf16LengthIsLength(s: string)
    ensures Utf16Length(s) == |s| <==> forall i :: 0 <= i < |s| ==> s[i] as int <= 0xFFFF
    decreases |s|
  {
    if s != [] {
      Utf16LengthIsLength(s[1..]);
      assert forall i :: 1 <= i < |s| ==> s[i] == s[1..][i - 1];
    }
  }
}
