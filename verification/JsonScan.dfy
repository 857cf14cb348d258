/**
Finding the one JSON object in a model's answer: `extract_json_object`
(crates/hyperion-app/src/plan.rs), a single pass over bytes that tracks string literals and escapes.
*/
module JsonScan {
  import opened Common
  import opened Bytes

  const QUOTE: Byte := 34
  const BACKSLASH: Byte := 92
  const OPEN: Byte := 123
  const CLOSE: Byte := 125

  /** The four bytes that matter, as characters. */
  lemma MarksAre()
    ensures QUOTE as char == '"' && BACKSLASH as char == '\\' && OPEN as char == '{' && CLOSE as char == '}'
  {}

  // ----- What a balanced slice is -----

  /** The length of the rest of a string literal, closing quote included; `s` starts after the opening quote. */
  function LiteralRest(s: seq<Byte>): (r: Option<nat>)
    ensures r.Some? ==> 1 <= r.value <= |s|
  {
    if s == [] then None
    else if s[0] == QUOTE then Some(1)
    else
      var k := if s[0] == BACKSLASH then 2 else 1;
      if |s| < k then None
      else
        var rest := LiteralRest(s[k..]);
        if rest.None? then None else Some(k + rest.value)
  }

  /** The bytes outside string literals, or `None` if a literal is not closed. */
  function Outside(s: seq<Byte>): Option<seq<Byte>> {
    if s == [] then Some([])
    else if s[0] == QUOTE then
      var rest := LiteralRest(s[1..]);
      if rest.None? then None else Outside(s[1 + rest.value..])
    else
      var rest := Outside(s[1..]);
      if rest.None? then None else Some([s[0]] + rest.value)
  }

  function Count(b: Byte, s: seq<Byte>): nat {
    if s == [] then 0 else (if s[0] == b then 1 else 0) + Count(b, s[1..])
  }

  /** Every literal is closed, and the braces outside literals match up. */
  predicate Balanced(s: seq<Byte>) {
    var o := Outside(s);
    o.Some? && Count(OPEN, o.value) == Count(CLOSE, o.value) > 0
  }

  function FirstOpen(text: seq<Byte>): (k: nat)
    ensures k <= |text|
    ensures k < |text| ==> text[k] == OPEN
    ensures forall i | 0 <= i < k :: text[i] != OPEN
  {
    if text == [] || text[0] == OPEN then 0 else 1 + FirstOpen(text[1..])
  }

  /** `x` is the shortest balanced slice starting at the first opening brace. */
  ghost predicate IsObject(text: seq<Byte>, x: seq<Byte>) {
    var start := FirstOpen(text);
    && x != [] && start + |x| <= |text| && x == text[start..start + |x|]
    && Balanced(x) && forall n | 0 <= n < |x| :: !Balanced(x[..n])
  }

  // ----- The scanner -----

  datatype Mode = Code | Literal | Escaped

  datatype Scan = Scan(depth: int, mode: Mode)

  function Next(s: Scan, b: Byte): Scan {
    match s.mode
    case Escaped => s.(mode := Literal)
    case Literal => if b == BACKSLASH then s.(mode := Escaped) else if b == QUOTE then s.(mode := Code) else s
    case Code =>
      if b == QUOTE then s.(mode := Literal)
      else if b == OPEN then s.(depth := s.depth + 1)
      else if b == CLOSE then s.(depth := s.depth - 1)
      else s
  }

  function ScanFrom(st: Scan, s: seq<Byte>): Scan
    decreases |s|
  {
    if s == [] then st else ScanFrom(Next(st, s[0]), s[1..])
  }

  lemma {:induction false} ScanOneMore(st: Scan, s: seq<Byte>, b: Byte)
    ensures ScanFrom(st, s + [b]) == Next(ScanFrom(st, s), b)
    decreases |s|
  {
    if s == [] {
      assert (s + [b])[1..] == [];
    } else {
      assert (s + [b])[1..] == s[1..] + [b];
      ScanOneMore(Next(st, s[0]), s[1..], b);
    }
  }

  /** Inside a literal the scanner waits for the same closing quote that `LiteralRest` finds. */
  lemma {:induction false} ScanLiteral(d: int, s: seq<Byte>)
    ensures
      var r, rest := ScanFrom(Scan(d, Literal), s), LiteralRest(s);
      if rest.None? then r.mode != Code else r == ScanFrom(Scan(d, Code), s[rest.value..])
  {
    if s != [] && s[0] != QUOTE {
      if s[0] == BACKSLASH {
        if |s| >= 2 {
          assert s[1..][1..] == s[2..];
          ScanLiteral(d, s[2..]);
        }
      } else {
        ScanLiteral(d, s[1..]);
      }
    }
  }

  /** The scanner stands outside literals exactly when all are closed, and its depth is the brace excess. */
  lemma {:induction false} ScanMeaning(d: int, s: seq<Byte>)
    ensures
      var r, o := ScanFrom(Scan(d, Code), s), Outside(s);
      && (r.mode == Code <==> o.Some?)
      && (o.Some? ==> r.depth == d + Count(OPEN, o.value) - Count(CLOSE, o.value))
    decreases |s|
  {
    if s != [] {
      if s[0] == QUOTE {
        ScanLiteral(d, s[1..]);
        var rest := LiteralRest(s[1..]);
        if rest.Some? {
          assert s[1..][rest.value..] == s[1 + rest.value..];
          ScanMeaning(d, s[1 + rest.value..]);
        }
      } else {
        ScanMeaning(Next(Scan(d, Code), s[0]).depth, s[1..]);
        var rest := Outside(s[1..]);
        if rest.Some? {
          assert ([s[0]] + rest.value)[1..] == rest.value;
        }
      }
    }
  }

  lemma {:induction false} OpenIsCounted(s: seq<Byte>)
    requires s != [] && s[0] == OPEN && Outside(s).Some?
    ensures Count(OPEN, Outside(s).value) > 0
  {
    var rest := Outside(s[1..]);
    assert Outside(s).value[0] == OPEN;
  }

  lemma BalancedAtZero(s: seq<Byte>)
    requires s != [] && s[0] == OPEN
    ensures Balanced(s) <==> ScanFrom(Scan(0, Code), s) == Scan(0, Code)
  {
    ScanMeaning(0, s);
    if Outside(s).Some? {
      OpenIsCounted(s);
    }
  }

  lemma ShorterSlices(text: seq<Byte>, start: nat, end: nat)
    requires start < end <= |text| && forall n | start <= n < end :: !Balanced(text[start..n])
    ensures forall n | 0 <= n < end - start :: !Balanced(text[start..end][..n])
  {
    hide Balanced;
    forall n | 0 <= n < end - start ensures !Balanced(text[start..end][..n]) {
      assert text[start..end][..n] == text[start..start + n];
    }
  }

  lemma FoundObject(text: seq<Byte>, start: nat, end: nat)
    requires start == FirstOpen(text) < end <= |text| && Balanced(text[start..end])
    requires forall n | start <= n < end :: !Balanced(text[start..n])
    ensures IsObject(text, text[start..end])
  {
    hide Balanced, FirstOpen;
    ShorterSlices(text, start, end);
  }

  lemma NoObject(text: seq<Byte>)
    requires forall n | FirstOpen(text) <= n <= |text| :: !Balanced(text[FirstOpen(text)..n])
    ensures forall x :: !IsObject(text, x)
  {}

  /** `extract_json_object`: exact in both directions, and the unsigned depth never goes below zero. */
  method ExtractJsonObject(text: seq<Byte>) returns (r: Option<seq<Byte>>)
    ensures r.Some? ==> IsObject(text, r.value)
    ensures r.None? <==> forall x :: !IsObject(text, x)
  {
    hide Balanced, ScanFrom, IsObject, FirstOpen;
    var start := FirstOpen(text);
    if start == |text| {
      EmptyUnbalanced(text, start);
      NoObject(text);
      return None;
    }
    EmptyUnbalanced(text, start);
    var depth: nat := 0;
    var inString, escaped := false, false;
    for offset := start to |text|
      invariant StateIs(depth, inString, escaped, text[start..offset])
      invariant offset > start ==> depth > 0
      invariant forall n | start <= n <= offset :: !Balanced(text[start..n])
    {
      var byte := text[offset];
      OneMoreByte(text, start, offset);
      if inString {
        if escaped {
          escaped := false;
        } else if byte == BACKSLASH {
          escaped := true;
        } else if byte == QUOTE {
          inString := false;
        }
      } else if byte == QUOTE {
        inString := true;
      } else if byte == OPEN {
        depth := depth + 1;
      } else if byte == CLOSE {
        depth := depth - 1;
        if depth == 0 {
          FoundObject(text, start, offset + 1);
          return Some(text[start..offset + 1]);
        }
      }
    }
    NoObject(text);
    r := None;
  }

  lemma EmptyUnbalanced(text: seq<Byte>, start: nat)
    requires start <= |text|
    ensures !Balanced(text[start..start]) && ScanFrom(Scan(0, Code), text[start..start]) == Scan(0, Code)
  {
    assert text[start..start] == [];
  }

  lemma OneMoreByte(text: seq<Byte>, start: nat, offset: nat)
    requires start <= offset < |text| && text[start] == OPEN
    ensures ScanFrom(Scan(0, Code), text[start..offset + 1])
      == Next(ScanFrom(Scan(0, Code), text[start..offset]), text[offset])
    ensures Balanced(text[start..offset + 1]) <==> ScanFrom(Scan(0, Code), text[start..offset + 1]) == Scan(0, Code)
  {
    var slice := text[start..offset + 1];
    assert slice == text[start..offset] + [text[offset]];
    ScanOneMore(Scan(0, Code), text[start..offset], text[offset]);
    BalancedAtZero(slice);
  }

  /** The three loop variables hold the scanner's state after the bytes read so far. */
  ghost predicate StateIs(depth: nat, inString: bool, escaped: bool, read: seq<Byte>) {
    && ScanFrom(Scan(0, Code), read) == Scan(depth, if escaped then Escaped else if inString then Literal else Code)
    && (escaped ==> inString)
  }

  // ----- What surrounds the object does not matter -----

  lemma SlicesNest(text: seq<Byte>, start: nat, x: seq<Byte>, y: seq<Byte>)
    requires start + |x| <= |text| && x == text[start..start + |x|]
    requires start + |y| <= |text| && y == text[start..start + |y|]
    ensures |x| <= |y| ==> y[..|x|] == x
  {}

  lemma ObjectUnique(text: seq<Byte>, x: seq<Byte>, y: seq<Byte>)
    requires IsObject(text, x) && IsObject(text, y)
    ensures x == y
  {
    SlicesNest(text, FirstOpen(text), x, y);
    SlicesNest(text, FirstOpen(text), y, x);
  }

  lemma {:induction false} FirstOpenAfter(before: seq<Byte>, x: seq<Byte>, after: seq<Byte>)
    requires OPEN !in before && x != [] && x[0] == OPEN
    ensures FirstOpen(before + x + after) == |before|
  {
    if before != [] {
      assert (before + x + after)[1..] == before[1..] + x + after;
      FirstOpenAfter(before[1..], x, after);
    }
  }

  /** An object found on its own is found unchanged inside any preamble without a brace and any trailer. */
  lemma ObjectFoundInProse(before: seq<Byte>, x: seq<Byte>, after: seq<Byte>)
    requires OPEN !in before && IsObject(x, x)
    ensures IsObject(before + x + after, x)
    ensures forall y :: IsObject(before + x + after, y) ==> y == x
  {
    var text := before + x + after;
    FirstOpenAfter(before, x, after);
    assert text[|before|..|before| + |x|] == x;
    forall y | IsObject(text, y) ensures y == x {
      ObjectUnique(text, x, y);
    }
  }
}
