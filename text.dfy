/** The string trimming that the task list applies to every input before it
    stores it: JavaScript's String.prototype.trim, which removes white space
    and line terminators from both ends of a string. */
module Text {

  /** The characters JavaScript's trim treats as white space or line
      terminators: tab, line feed, vertical tab, form feed, carriage return,
      space, no-break space, the byte order mark, the line and paragraph
      separators and the other space separators of Unicode. */
  predicate IsWhitespace(c: char)
    ensures c == ' ' || c == '\t' || c == '\n' || c == '\r' ==> IsWhitespace(c)
    ensures 'a' <= c <= 'z' || 'A' <= c <= 'Z' || '0' <= c <= '9' ==> !IsWhitespace(c)
  {
    || c == '\t' || c == '\n' || c == '\U{000B}' || c == '\U{000C}' || c == '\r'
    || c == ' ' || c == '\U{00A0}' || c == '\U{FEFF}'
    || c == '\U{2028}' || c == '\U{2029}'
    || c == '\U{1680}' || ('\U{2000}' <= c <= '\U{200A}')
    || c == '\U{202F}' || c == '\U{205F}' || c == '\U{3000}'
  }

  predicate AllWhitespace(s: string) {
    forall i | 0 <= i < |s| :: IsWhitespace(s[i])
  }

  /** Drops the leading white space of s. */
  function TrimStart(s: string): (r: string)
    ensures |r| <= |s| && r == s[|s| - |r|..]
    ensures AllWhitespace(s[..|s| - |r|])
    ensures r == [] || !IsWhitespace(r[0])
  {
    if s != [] && IsWhitespace(s[0]) then
      var r := TrimStart(s[1..]);
      assert s[..|s| - |r|] == [s[0]] + s[1..][..|s| - 1 - |r|];
      r
    else
      s
  }

  /** Drops the trailing white space of s. */
  function TrimEnd(s: string): (r: string)
    ensures |r| <= |s| && r == s[..|r|]
    ensures AllWhitespace(s[|r|..])
    ensures r == [] || !IsWhitespace(r[|r| - 1])
  {
    if s != [] && IsWhitespace(s[|s| - 1]) then
      var r := TrimEnd(s[..|s| - 1]);
      assert s[|r|..] == s[..|s| - 1][|r|..] + [s[|s| - 1]];
      r
    else
      s
  }

  /** String.prototype.trim. */
  function Trim(s: string): (r: string)
    ensures |r| <= |s|
  {
    TrimEnd(TrimStart(s))
  }

  /** Trimming leaves nothing exactly when s holds nothing but white space. */
  lemma TrimEmpty(s: string)
    ensures Trim(s) == [] <==> AllWhitespace(s)
  {
    var front := TrimStart(s);
    var k := |s| - |front|;
    assert s == s[..k] + front;
    AllWhitespaceConcat(s[..k], front);
    if Trim(s) == [] {
      TrimEndEmpty(front);
    }
  }

  lemma TrimEndEmpty(s: string)
    requires TrimEnd(s) == []
    ensures AllWhitespace(s)
  {
    assert s[|TrimEnd(s)|..] == s;
  }

  lemma AllWhitespaceConcat(a: string, b: string)
    ensures AllWhitespace(a + b) <==> AllWhitespace(a) && AllWhitespace(b)
  {
    if AllWhitespace(a + b) {
      forall i | 0 <= i < |a| ensures IsWhitespace(a[i]) {
        assert a[i] == (a + b)[i];
      }
      forall i | 0 <= i < |b| ensures IsWhitespace(b[i]) {
        assert b[i] == (a + b)[|a| + i];
      }
    }
    if AllWhitespace(a) && AllWhitespace(b) {
      forall i | 0 <= i < |a + b| ensures IsWhitespace((a + b)[i]) {
        if i < |a| { assert (a + b)[i] == a[i]; } else { assert (a + b)[i] == b[i - |a|]; }
      }
    }
  }

  /** The trimmed string is the part of s between a white-space prefix and a
      white-space suffix (k is where it starts). */
  lemma TrimIsInfix(s: string) returns (k: int)
    ensures 0 <= k <= |s| - |Trim(s)|
    ensures Trim(s) == s[k..k + |Trim(s)|]
    ensures AllWhitespace(s[..k]) && AllWhitespace(s[k + |Trim(s)|..])
  {
    var front := TrimStart(s);
    var r := TrimEnd(front);
    k := |s| - |front|;
    assert front == s[k..];
    assert r == front[..|r|];
    assert s[k + |r|..] == front[|r|..];
  }

  /** The trimmed string neither starts nor ends with white space. */
  lemma TrimEnds(s: string)
    ensures Trim(s) != [] ==> !IsWhitespace(Trim(s)[0]) && !IsWhitespace(Trim(s)[|Trim(s)| - 1])
  {
    var front := TrimStart(s);
    var r := TrimEnd(front);
    if r != [] {
      assert r[0] == front[0];
    }
  }

  /** Trimming twice is trimming once. */
  lemma TrimIdempotent(s: string)
    ensures Trim(Trim(s)) == Trim(s)
  {
    var r := Trim(s);
    if r != [] {
      assert TrimStart(r) == r;
      assert TrimEnd(r) == r;
    }
  }
}
