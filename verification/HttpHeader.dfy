/**
The text of an HTTP/1.1 header block (crates/hyperion-console/src/http_server.rs): its lines, the request line's
words, and the declared length of the body.
*/
module HttpHeader {
  import opened Common
  import opened Text
  import opened Numerals

  datatype Request = Request(verb: string, path: string, headers: string, body: string)

  // ----- What the source computes -----

  /** The text before the first newline, if there is one, and what follows it. */
  function CutLine(s: string): Option<(string, string)> {
    SplitOnce(s, '\n')
  }

  lemma {:induction false} SplitShortens(s: string, c: char)
    ensures
      var cut := SplitOnce(s, c);
      cut.Some? ==> |cut.value.1| < |s|
  {
    if s != [] && s[0] != c {
      SplitShortens(s[1..], c);
    }
  }

  function StripReturn(line: string): string {
    if line != [] && line[|line| - 1] == '\r' then line[..|line| - 1] else line
  }

  /** Rust's `lines`: a return is dropped only before a newline, so a last line without one keeps it. */
  function Lines(s: string): seq<string>
    decreases |s|
  {
    var cut := CutLine(s);
    SplitShortens(s, '\n');
    if s == [] then []
    else if cut.None? then [s]
    else [StripReturn(cut.value.0)] + Lines(cut.value.1)
  }

  function TakeWord(s: string): string {
    if s == [] || IsWhitespace(s[0]) then [] else [s[0]] + TakeWord(s[1..])
  }

  function FirstWord(s: string): string {
    TakeWord(TrimStart(s))
  }

  function AfterFirstWord(s: string): string {
    DropWord(TrimStart(s))
  }

  function DropWord(s: string): string {
    if s == [] || IsWhitespace(s[0]) then s else DropWord(s[1..])
  }

  /** What precedes the first `c`, and what follows it, if it occurs. */
  function SplitOnce(s: string, c: char): Option<(string, string)> {
    if s == [] then None
    else if s[0] == c then Some(([], s[1..]))
    else
      var rest := SplitOnce(s[1..], c);
      if rest.None? then None else Some(([s[0]] + rest.value.0, rest.value.1))
  }

  function WithoutQuery(path: string): string {
    var cut := SplitOnce(path, '?');
    if cut.Some? then cut.value.0 else path
  }

  function Lower(c: char): char {
    if 'A' <= c <= 'Z' then c - 'A' + 'a' else c
  }

  predicate EqIgnoreCase(s: string, t: string) {
    |s| == |t| && forall i | 0 <= i < |s| :: Lower(s[i]) == Lower(t[i])
  }

  /** The value of the first line naming `Content-Length`. */
  function ContentLength(lines: seq<string>): Option<string> {
    if lines == [] then None
    else
      var cut := SplitOnce(lines[0], ':');
      if cut.Some? && EqIgnoreCase(Trim(cut.value.0), "content-length") then Some(Trim(cut.value.1))
      else ContentLength(lines[1..])
  }

  function DigitsValue(s: string): Option<nat> {
    if s == [] then Some(0)
    else
      var rest, c := DigitsValue(s[..|s| - 1]), s[|s| - 1];
      if rest.None? || !('0' <= c <= '9') then None else Some(rest.value * 10 + (c - '0') as nat)
  }

  /** `parse::<usize>`: digits after an optional plus sign, within 64 bits. */
  function ParseUsize(s: string): Option<nat> {
    var digits := if s != [] && s[0] == '+' then s[1..] else s;
    var v := DigitsValue(digits);
    if digits == [] || v.None? || v.value >= U64 then None else v
  }

  function DeclaredLength(headers: string): nat {
    var value := ContentLength(Lines(headers));
    var parsed := if value.Some? then ParseUsize(value.value) else None;
    if parsed.Some? then parsed.value else 0
  }

  function RequestLine(headers: string): string {
    var lines := Lines(headers);
    if lines == [] then [] else lines[0]
  }

  function MakeRequest(headers: string, body: string): Request {
    var line := RequestLine(headers);
    Request(FirstWord(line), WithoutQuery(FirstWord(AfterFirstWord(line))), headers, body)
  }

  // ----- Cutting text -----

  lemma {:induction false} SplitOnceIs(a: string, c: char, b: string)
    requires c !in a
    ensures SplitOnce(a + [c] + b, c) == Some((a, b))
  {
    var s := a + [c] + b;
    if a == [] {
      assert s[0] == c && s[1..] == b;
    } else {
      assert s[0] == a[0] && s[1..] == a[1..] + [c] + b;
      SplitOnceIs(a[1..], c, b);
      assert a == [a[0]] + a[1..];
    }
  }

  lemma {:induction false} SplitOnceParts(s: string, c: char)
    ensures SplitOnce(s, c).None? <==> c !in s
    ensures
      var cut := SplitOnce(s, c);
      cut.Some? ==> s == cut.value.0 + [c] + cut.value.1 && c !in cut.value.0
  {
    if s != [] && s[0] != c {
      SplitOnceParts(s[1..], c);
      assert s == [s[0]] + s[1..];
    }
  }

  /** Lines put together as they are sent: each but the last ended by a return and a newline. */
  function JoinLines(lines: seq<string>): string {
    if lines == [] then [] else if |lines| == 1 then lines[0] else lines[0] + "\r\n" + JoinLines(lines[1..])
  }

  /** Lines without a newline in them, the last one not empty. */
  predicate Sendable(lines: seq<string>) {
    && lines != [] && lines[|lines| - 1] != []
    && forall i | 0 <= i < |lines| :: '\n' !in lines[i]
  }

  /** Cutting a header block into lines undoes putting the lines together. */
  lemma {:induction false} LinesOfJoined(lines: seq<string>)
    requires Sendable(lines)
    ensures Lines(JoinLines(lines)) == lines
    decreases |lines|
  {
    var s := JoinLines(lines);
    SplitOnceParts(s, '\n');
    if |lines| > 1 {
      var first, rest := lines[0], JoinLines(lines[1..]);
      assert s == (first + "\r") + ['\n'] + rest;
      SplitOnceIs(first + "\r", '\n', rest);
      assert StripReturn(first + "\r") == first;
      LinesOfJoined(lines[1..]);
      assert lines == [first] + lines[1..];
    }
  }

  // ----- The declared length -----

  /** `content-length`, each letter in either case. */
  predicate IsLengthName(s: string) {
    && |s| == 14
    && forall i | 0 <= i < 14 :: s[i] == "content-length"[i] || s[i] == "CONTENT-LENGTH"[i]
  }

  lemma LowerIs(x: char, lower: char, upper: char)
    requires ('a' <= lower <= 'z' && upper == lower - 'a' + 'A') || lower == upper == '-'
    ensures Lower(x) == Lower(lower) <==> x == lower || x == upper
  {}

  lemma EqIgnoreCaseIff(s: string)
    ensures EqIgnoreCase(s, "content-length") <==> IsLengthName(s)
  {
    hide Lower;
    var lower, upper := "content-length", "CONTENT-LENGTH";
    assert |lower| == 14 && |upper| == 14;
    forall i, x: char | 0 <= i < 14 ensures Lower(x) == Lower(lower[i]) <==> x == lower[i] || x == upper[i] {
      LettersPair(i);
      LowerIs(x, lower[i], upper[i]);
    }
  }

  lemma LettersPair(i: nat)
    requires i < 14
    ensures
      var l, u := "content-length"[i], "CONTENT-LENGTH"[i];
      ('a' <= l <= 'z' && u == l - 'a' + 'A') || l == u == '-'
  {}

  /** A line that gives a content length: the name, blanks around it allowed, a colon, and anything. */
  ghost predicate LengthLine(line: string, value: string) {
    exists a, name, b :: NamedBy(line, a, name, b, value)
  }

  ghost predicate NamedBy(line: string, a: string, name: string, b: string, value: string) {
    Blank(a) && IsLengthName(name) && Blank(b) && line == a + name + b + ":" + value
  }

  ghost predicate NamesLength(line: string) {
    exists value :: LengthLine(line, value)
  }

  lemma LengthNameIsBare(name: string)
    requires IsLengthName(name)
    ensures Bare(name) && ':' !in name
  {
    LettersPair(0);
    LettersPair(13);
    forall i | 0 <= i < 14 ensures name[i] != ':' {
      LettersPair(i);
    }
  }

  lemma BlankHasNoColon(a: string)
    requires Blank(a)
    ensures ':' !in a
  {}

  /** The test the source makes of a line. */
  predicate Tested(line: string) {
    var cut := SplitOnce(line, ':');
    cut.Some? && EqIgnoreCase(Trim(cut.value.0), "content-length")
  }

  lemma TestedIs(line: string, value: string)
    ensures LengthLine(line, value) <==> Tested(line) && SplitOnce(line, ':').value.1 == value
  {
    hide IsWhitespace, Blank, Bare, Trim, EqIgnoreCase, IsLengthName, SplitOnce;
    if LengthLine(line, value) {
      var a, name, b :| NamedBy(line, a, name, b, value);
      LengthNameIsBare(name);
      BlankHasNoColon(a);
      BlankHasNoColon(b);
      assert line == (a + name + b) + [':'] + value;
      SplitOnceIs(a + name + b, ':', value);
      TrimIs(a, name, b);
      EqIgnoreCaseIff(name);
    }
    if Tested(line) && SplitOnce(line, ':').value.1 == value {
      SplitOnceParts(line, ':');
      var key := SplitOnce(line, ':').value.0;
      var a, b := TrimParts(key);
      EqIgnoreCaseIff(Trim(key));
      assert NamedBy(line, a, Trim(key), b, value);
    }
  }

  /** The lines before the `k`-th name no length. */
  ghost predicate FirstAt(lines: seq<string>, k: nat) {
    k <= |lines| && forall j | 0 <= j < k :: !NamesLength(lines[j])
  }

  lemma {:induction false} ContentLengthIs(lines: seq<string>, k: nat, value: string)
    requires FirstAt(lines, k)
    ensures k == |lines| ==> ContentLength(lines) == None
    ensures k < |lines| && LengthLine(lines[k], value) ==> ContentLength(lines) == Some(Trim(value))
    decreases k
  {
    hide LengthLine, Trim, EqIgnoreCase, SplitOnce;
    if lines != [] {
      if k == 0 {
        TestedIs(lines[0], value);
      } else {
        if Tested(lines[0]) {
          TestedIs(lines[0], SplitOnce(lines[0], ':').value.1);
        }
        forall j | 0 <= j < k - 1 ensures !NamesLength(lines[1..][j]) {
          assert lines[1..][j] == lines[j + 1];
        }
        ContentLengthIs(lines[1..], k - 1, value);
        assert k < |lines| ==> lines[1..][k - 1] == lines[k];
      }
    }
  }

  /** `value` is a number below 2^64: blanks around it and a plus sign before it allowed, leading zeros too. */
  ghost predicate Declares(value: string, n: nat) {
    n < U64 && exists a, b, sign, digits :: DeclaredBy(value, n, a, sign, digits, b)
  }

  ghost predicate DeclaredBy(value: string, n: nat, a: string, sign: string, digits: string, b: string) {
    && Blank(a) && (sign == "" || sign == "+") && Writes(digits, n) && Blank(b)
    && value == a + sign + digits + b
  }

  lemma {:induction false} DigitsValueIs(s: string)
    ensures DigitsValue(s) == if AllDigits(s) then Some(ReadNat(s)) else None
  {
    if s != [] {
      DigitsValueIs(s[..|s| - 1]);
      assert AllDigits(s) <==> AllDigits(s[..|s| - 1]) && IsDigit(s[|s| - 1]);
    }
  }

  lemma ParseUsizeIs(s: string, n: nat)
    ensures ParseUsize(s) == Some(n) <==>
      n < U64 && (Writes(s, n) || (s != [] && s[0] == '+' && Writes(s[1..], n)))
  {
    hide DigitsValue, Writes, ReadNat;
    DigitsValueIs(s);
    WritesIff(s, n);
    if s != [] && s[0] == '+' {
      DigitsValueIs(s[1..]);
      WritesIff(s[1..], n);
    }
  }

  lemma DigitsAreBare(sign: string, digits: string, n: nat)
    requires (sign == "" || sign == "+") && Writes(digits, n)
    ensures Bare(sign + digits)
  {
    hide Writes;
    WritesIff(digits, n);
    var s := sign + digits;
    assert s[|s| - 1] == digits[|digits| - 1];
  }

  lemma DeclaresIff(value: string, n: nat)
    ensures Declares(value, n) <==> ParseUsize(Trim(value)) == Some(n)
  {
    hide Trim, ParseUsize, Writes, Blank, Bare;
    ParseUsizeIs(Trim(value), n);
    if Declares(value, n) {
      var a, b, sign, digits :| DeclaredBy(value, n, a, sign, digits, b);
      DigitsAreBare(sign, digits, n);
      assert value == a + (sign + digits) + b;
      TrimIs(a, sign + digits, b);
      if sign == "" {
        assert sign + digits == digits;
      } else {
        assert (sign + digits)[1..] == digits;
      }
    }
    if ParseUsize(Trim(value)) == Some(n) {
      var a, b := TrimParts(value);
      var s := Trim(value);
      if Writes(s, n) {
        assert a + "" + s + b == a + s + b;
        assert DeclaredBy(value, n, a, "", s, b);
      } else {
        assert s == "+" + s[1..];
        assert a + "+" + s[1..] + b == a + s + b;
        assert DeclaredBy(value, n, a, "+", s[1..], b);
      }
    }
  }

  /** The length that lines declare: what the first one naming it gives, and zero if it gives no number or none does. */
  ghost predicate GivesLength(lines: seq<string>, n: nat) {
    || (FirstAt(lines, |lines|) && n == 0)
    || exists k: nat, value :: LengthGivenAt(lines, k, value, n)
  }

  ghost predicate LengthGivenAt(lines: seq<string>, k: nat, value: string, n: nat) {
    && FirstAt(lines, k) && k < |lines| && LengthLine(lines[k], value)
    && (Declares(value, n) || (n == 0 && forall m: nat :: !Declares(value, m)))
  }

  lemma {:induction false} FirstNaming(lines: seq<string>, k: nat) returns (f: nat)
    requires FirstAt(lines, k)
    ensures FirstAt(lines, f) && (f == |lines| || NamesLength(lines[f]))
    decreases |lines| - k
  {
    f := k;
    if k < |lines| && !NamesLength(lines[k]) {
      f := FirstNaming(lines, k + 1);
    }
  }

  lemma GivenLengthRead(headers: string, k: nat, value: string, n: nat)
    requires LengthGivenAt(Lines(headers), k, value, n)
    ensures DeclaredLength(headers) == n
  {
    hide Lines, ContentLength, ParseUsize, Declares, Trim, LengthLine;
    ContentLengthIs(Lines(headers), k, value);
    DeclaresIff(value, n);
    var parsed := ParseUsize(Trim(value));
    if parsed.Some? {
      DeclaresIff(value, parsed.value);
    }
  }

  /** The declared length of any header text at all is exactly the one its lines give. */
  lemma DeclaredLengthIff(headers: string, n: nat)
    ensures DeclaredLength(headers) == n <==> GivesLength(Lines(headers), n)
  {
    hide Lines, DeclaredLength, Declares, LengthLine;
    var lines := Lines(headers);
    if FirstAt(lines, |lines|) {
      NoLengthNamed(headers);
    }
    if k: nat, value :| LengthGivenAt(lines, k, value, n) {
      GivenLengthRead(headers, k, value, n);
    }
    if DeclaredLength(headers) == n {
      var f := FirstNaming(lines, 0);
      if f < |lines| {
        var value :| LengthLine(lines[f], value);
        var m: nat := 0;
        if m' :| Declares(value, m') {
          m := m';
        }
        assert LengthGivenAt(lines, f, value, m);
        GivenLengthRead(headers, f, value, m);
      }
    }
  }

  lemma NoLengthNamed(headers: string)
    requires FirstAt(Lines(headers), |Lines(headers)|)
    ensures DeclaredLength(headers) == 0
  {
    hide Lines, ContentLength;
    ContentLengthIs(Lines(headers), |Lines(headers)|, []);
  }

  // ----- The request line -----

  predicate Word(s: string) {
    s != [] && forall i | 0 <= i < |s| :: !IsWhitespace(s[i])
  }

  /** What can follow a word: nothing, or something that starts with white space. */
  predicate Apart(s: string) {
    s == [] || IsWhitespace(s[0])
  }

  lemma {:induction false} TakeWordIs(w: string, rest: string)
    requires (forall i | 0 <= i < |w| :: !IsWhitespace(w[i])) && Apart(rest)
    ensures TakeWord(w + rest) == w && DropWord(w + rest) == rest
  {
    hide IsWhitespace;
    if w == [] {
      assert w + rest == rest;
    } else {
      assert (w + rest)[0] == w[0] && (w + rest)[1..] == w[1..] + rest;
      TakeWordIs(w[1..], rest);
      assert w == [w[0]] + w[1..];
    }
  }

  lemma WordsOf(a: string, w: string, rest: string)
    requires Blank(a) && Word(w) && Apart(rest)
    ensures FirstWord(a + w + rest) == w && AfterFirstWord(a + w + rest) == rest
  {
    hide IsWhitespace, TrimStart, TakeWord, DropWord;
    assert a + w + rest == a + (w + rest);
    TrimStartIs(a, w + rest);
    TakeWordIs(w, rest);
  }

  lemma NoWords(a: string)
    requires Blank(a)
    ensures FirstWord(a) == [] && AfterFirstWord(a) == []
  {
    hide TrimStart;
    assert a + [] == a;
    TrimStartIs(a, []);
  }

  /** A target: the path, and a query after the first question mark, if there is one. */
  predicate IsTarget(target: string, path: string) {
    '?' !in path && (target == path || (path + "?" <= target))
  }

  /** A request line taken apart: its first two words, with whatever white space, and the rest. */
  datatype Words = Words(before: string, verb: string, between: string, target: string, path: string, rest: string)

  /** `w` takes `line` apart; a missing word is empty. */
  predicate TakesApart(line: string, w: Words) {
    && Blank(w.before) && Blank(w.between) && Apart(w.rest) && IsTarget(w.target, w.path)
    && line == w.before + w.verb + w.between + w.target + w.rest
    && (if w.target != [] then Word(w.verb) && w.between != [] && Word(w.target)
        else if w.verb != [] then Word(w.verb) && w.rest == []
        else w.between == w.rest == [])
  }

  /** Of any header text: the verb is the first word of its first line, the path the second up to a question mark. */
  lemma RequestLineIs(headers: string, body: string, w: Words)
    requires TakesApart(if Lines(headers) == [] then [] else Lines(headers)[0], w)
    ensures MakeRequest(headers, body) == Request(w.verb, w.path, headers, body)
  {
    hide Lines, IsWhitespace, FirstWord, AfterFirstWord, TrimStart, IsTarget, WithoutQuery;
    var line := RequestLine(headers);
    PathIs(w.target, w.path);
    var tail := w.between + w.target + w.rest;
    if w.verb == [] {
      assert line == w.before;
      NoWords(line);
      NoWords([]);
    } else {
      assert line == w.before + w.verb + tail;
      WordsOf(w.before, w.verb, tail);
      if w.target == [] {
        assert tail == w.between;
        NoWords(tail);
      } else {
        WordsOf(w.between, w.target, w.rest);
      }
    }
  }

  lemma PathIs(target: string, path: string)
    requires IsTarget(target, path)
    ensures WithoutQuery(target) == path
  {
    SplitOnceParts(target, '?');
    if path + "?" <= target {
      var query := target[|path| + 1..];
      assert target == path + ['?'] + query;
      SplitOnceIs(path, '?', query);
    }
  }
}
