/** The pieces of Rust's `str` that the source relies on. */
module Text {

  /** Unicode `White_Space`, which `trim` and `split_whitespace` go by. */
  predicate IsWhitespace(c: char) {
    var n := c as int;
    || 0x09 <= n <= 0x0D || n == 0x20 || n == 0x85 || n == 0xA0 || n == 0x1680
    || 0x2000 <= n <= 0x200A || n == 0x2028 || n == 0x2029 || n == 0x202F || n == 0x205F || n == 0x3000
  }

  /** Among ASCII characters: tab, newline, vertical tab, form feed, return and space. */
  lemma AsciiWhitespace(c: char)
    requires c < 128 as char
    ensures IsWhitespace(c) <==> c in {9 as char, '\n', 11 as char, 12 as char, '\r', ' '}
  {}

  function TrimStart(s: string): string {
    if s != [] && IsWhitespace(s[0]) then TrimStart(s[1..]) else s
  }

  function TrimEnd(s: string): string {
    if s != [] && IsWhitespace(s[|s| - 1]) then TrimEnd(s[..|s| - 1]) else s
  }

  function Trim(s: string): string {
    TrimEnd(TrimStart(s))
  }

  predicate Blank(s: string) {
    forall i | 0 <= i < |s| :: IsWhitespace(s[i])
  }

  /** Neither starting nor ending in white space. */
  predicate Bare(s: string) {
    s == [] || (!IsWhitespace(s[0]) && !IsWhitespace(s[|s| - 1]))
  }

  lemma {:induction false} TrimStartIs(a: string, rest: string)
    requires Blank(a) && (rest == [] || !IsWhitespace(rest[0]))
    ensures TrimStart(a + rest) == rest
  {
    hide IsWhitespace;
    if a == [] {
      assert a + rest == rest;
    } else {
      assert (a + rest)[0] == a[0] && (a + rest)[1..] == a[1..] + rest;
      TrimStartIs(a[1..], rest);
    }
  }

  lemma {:induction false} TrimEndIs(rest: string, b: string)
    requires Blank(b) && (rest == [] || !IsWhitespace(rest[|rest| - 1]))
    ensures TrimEnd(rest + b) == rest
  {
    hide IsWhitespace;
    if b == [] {
      assert rest + b == rest;
    } else {
      var s := rest + b;
      assert s[|s| - 1] == b[|b| - 1] && s[..|s| - 1] == rest + b[..|b| - 1];
      TrimEndIs(rest, b[..|b| - 1]);
    }
  }

  /** Trimming takes away exactly the white space at the two ends. */
  lemma TrimIs(a: string, core: string, b: string)
    requires Blank(a) && Bare(core) && Blank(b)
    ensures Trim(a + core + b) == core
  {
    hide IsWhitespace, TrimStart, TrimEnd;
    if core == [] {
      assert a + core + b == (a + b) + [];
      TrimStartIs(a + b, []);
      TrimEndIs([], []);
      var nothing: string := [];
      assert nothing + nothing == nothing;
    } else {
      assert a + core + b == a + (core + b);
      TrimStartIs(a, core + b);
      TrimEndIs(core, b);
    }
  }

  lemma {:induction false} TrimStartParts(s: string) returns (a: string)
    ensures s == a + TrimStart(s) && Blank(a) && (TrimStart(s) == [] || !IsWhitespace(TrimStart(s)[0]))
  {
    hide IsWhitespace;
    if s != [] && IsWhitespace(s[0]) {
      var rest := TrimStartParts(s[1..]);
      a := [s[0]] + rest;
      assert s == [s[0]] + s[1..];
    } else {
      a := [];
      assert s == a + s;
    }
  }

  lemma {:induction false} TrimEndParts(s: string) returns (b: string)
    ensures s == TrimEnd(s) + b && Blank(b) && (TrimEnd(s) == [] || !IsWhitespace(TrimEnd(s)[|TrimEnd(s)| - 1]))
  {
    hide IsWhitespace;
    if s != [] && IsWhitespace(s[|s| - 1]) {
      var rest := TrimEndParts(s[..|s| - 1]);
      b := rest + [s[|s| - 1]];
      assert s == s[..|s| - 1] + [s[|s| - 1]];
    } else {
      b := [];
      assert s == s + b;
    }
  }

  lemma TrimParts(s: string) returns (a: string, b: string)
    ensures s == a + Trim(s) + b && Blank(a) && Bare(Trim(s)) && Blank(b)
  {
    hide IsWhitespace, TrimStart, TrimEnd;
    a := TrimStartParts(s);
    var t := TrimStart(s);
    b := TrimEndParts(t);
    var core := TrimEnd(t);
    assert s == a + (core + b);
    assert core != [] ==> core[0] == t[0];
  }

  predicate IsLowerOrDigit(c: char) {
    'a' <= c <= 'z' || '0' <= c <= '9'
  }
}
