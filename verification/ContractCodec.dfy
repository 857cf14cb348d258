/**
The app contract that rides inside a signed manifest (crates/hyperion-app/src/contract.rs): one escape
layer, two nested delimiters, and a decoder that never accepts half a contract.
*/
module ContractCodec {
  import opened Common
  import opened Text

  datatype InputKind = PlainText | Integer | Number | Boolean | Path | Choice(options: seq<string>)

  datatype InputField = InputField(name: string, kind: InputKind, description: string, required: bool)

  datatype AppContract = AppContract(
    name: string, owner: string, keepsData: bool, resident: bool, goal: string, fields: seq<InputField>)

  const Version := "hyperion-app/v4"

  // ----- Escaping -----

  predicate IsSpecial(c: char) {
    c == '\\' || c == '|' || c == ','
  }

  function Escape(s: string): string {
    if s == [] then []
    else (if IsSpecial(s[0]) then ['\\', s[0]] else [s[0]]) + Escape(s[1..])
  }

  function Unescape(s: string): string {
    if s == [] then []
    else if s[0] != '\\' then [s[0]] + Unescape(s[1..])
    else if |s| == 1 then []
    else [s[1]] + Unescape(s[2..])
  }

  /** `p` continues the first piece. */
  function Prepend(p: string, pieces: seq<string>): seq<string>
    requires pieces != []
  {
    [p + pieces[0]] + pieces[1..]
  }

  /** The pieces between unescaped delimiters, each still escaped. */
  function Split(s: string, delim: char): (pieces: seq<string>)
    ensures pieces != []
  {
    if s == [] then [[]]
    else if s[0] == '\\' then
      if |s| == 1 then [['\\']] else Prepend(s[..2], Split(s[2..], delim))
    else if s[0] == delim then [[]] + Split(s[1..], delim)
    else Prepend(s[..1], Split(s[1..], delim))
  }

  method EscapeLoop(value: string) returns (out: string)
    ensures out == Escape(value)
  {
    hide Escape;
    out := [];
    assert value[0..] == value;
    for i := 0 to |value|
      invariant out + Escape(value[i..]) == Escape(value)
    {
      EscapeStep(value, i);
      ghost var rest := Escape(value[i + 1..]);
      assert forall p :: out + (p + rest) == out + p + rest;
      var c := value[i];
      if c == '\\' || c == '|' || c == ',' {
        assert ['\\', c] == ['\\'] + [c];
        out := out + ['\\'];
      }
      out := out + [c];
    }
    EscapeStep(value, |value|);
    assert out + [] == out;
  }

  lemma EscapeStep(s: string, i: nat)
    requires i <= |s|
    ensures Escape(s[i..]) ==
      if i == |s| then [] else (if IsSpecial(s[i]) then ['\\', s[i]] else [s[i]]) + Escape(s[i + 1..])
  {
    assert i < |s| ==> s[i..][1..] == s[i + 1..];
  }

  method UnescapeLoop(value: string) returns (out: string)
    ensures out == Unescape(value)
  {
    out := [];
    var i := 0;
    while i < |value|
      invariant i <= |value|
      invariant out + Unescape(value[i..]) == Unescape(value)
    {
      var c := value[i];
      i := i + 1;
      if c == '\\' {
        assert value[i - 1..][1..] == value[i..];
        if i < |value| {
          assert value[i - 1..][2..] == value[i + 1..];
          out := out + [value[i]];
          i := i + 1;
        }
      } else {
        assert value[i - 1..][1..] == value[i..];
        out := out + [c];
      }
    }
    assert value[|value|..] == [];
  }

  method SplitLoop(value: string, delim: char) returns (parts: seq<string>)
    requires delim != '\\'
    ensures parts == Split(value, delim)
  {
    parts := [];
    var current: string := [];
    var escaped := false;
    PrependNothing(Split(value, delim));
    assert value[0..] == value;
    for i := 0 to |value|
      invariant escaped ==> i > 0 && value[i - 1] == '\\'
      invariant
        parts + Prepend(current, Split(if escaped then value[i - 1..] else value[i..], delim)) == Split(value, delim)
    {
      var c := value[i];
      SplitStep(value, i, current, escaped, delim);
      if escaped {
        current := current + ['\\'];
        current := current + [c];
        escaped := false;
      } else if c == '\\' {
        escaped := true;
      } else if c == delim {
        parts := parts + [current];
        current := [];
      } else {
        current := current + [c];
      }
    }
    if escaped {
      assert value[|value| - 1..] == ['\\'];
      assert Prepend(current, [['\\']]) == [current + ['\\']];
      current := current + ['\\'];
    } else {
      assert value[|value|..] == [];
      assert current + [] == current;
      assert Prepend(current, [[]]) == [current];
    }
    parts := parts + [current];
  }

  /** What one more character does to the pieces still to come. */
  lemma SplitStep(value: string, i: nat, current: string, escaped: bool, delim: char)
    requires delim != '\\' && i < |value| && (escaped ==> i > 0 && value[i - 1] == '\\')
    ensures
      var now := Prepend(current, Split(if escaped then value[i - 1..] else value[i..], delim));
      var next := Split(value[i + 1..], delim);
      if escaped then now == Prepend(current + ['\\'] + [value[i]], next)
      else if value[i] == '\\' then true
      else if value[i] == delim then now == [current] + Prepend([], next)
      else now == Prepend(current + [value[i]], next)
  {
    var c, next := value[i], Split(value[i + 1..], delim);
    if escaped {
      var rest := value[i - 1..];
      assert rest[2..] == value[i + 1..] && rest[..2] == ['\\', c];
      PrependTwice(current, ['\\', c], next);
      assert current + ['\\', c] == current + ['\\'] + [c];
    } else {
      var rest := value[i..];
      assert rest[1..] == value[i + 1..] && rest[..1] == [c];
      if c == delim {
        PrependEnds(current, next);
      } else if c != '\\' {
        PrependTwice(current, [c], next);
      }
    }
  }

  lemma PrependTwice(p: string, q: string, pieces: seq<string>)
    requires pieces != []
    ensures Prepend(p, Prepend(q, pieces)) == Prepend(p + q, pieces)
  {
    assert p + (q + pieces[0]) == (p + q) + pieces[0];
  }

  lemma PrependNothing(pieces: seq<string>)
    requires pieces != []
    ensures Prepend([], pieces) == pieces
  {
    assert [] + pieces[0] == pieces[0];
  }

  lemma PrependEnds(p: string, pieces: seq<string>)
    requires pieces != []
    ensures Prepend(p, [[]] + pieces) == [p] + Prepend([], pieces)
  {
    var all := [[]] + pieces;
    PrependNothing(pieces);
    assert all[1..] == pieces && p + all[0] == p;
  }

  lemma {:induction false} UnescapeInvertsEscape(s: string)
    ensures Unescape(Escape(s)) == s
  {
    if s != [] {
      UnescapeInvertsEscape(s[1..]);
      var rest := Escape(s[1..]);
      if IsSpecial(s[0]) {
        assert Escape(s)[2..] == rest;
      } else {
        assert Escape(s)[1..] == rest;
      }
    }
  }

  // ----- Joining and splitting -----

  function Join(parts: seq<string>, delim: char): string {
    if parts == [] then []
    else if |parts| == 1 then parts[0]
    else parts[0] + [delim] + Join(parts[1..], delim)
  }

  /** Every delimiter in `p` is escaped, and `p` does not end inside an escape. */
  predicate Sealed(p: string, delim: char) {
    if p == [] then true
    else if p[0] == '\\' then |p| >= 2 && Sealed(p[2..], delim)
    else p[0] != delim && Sealed(p[1..], delim)
  }

  lemma {:induction false} SealedAppend(p: string, q: string, delim: char)
    requires Sealed(p, delim) && Sealed(q, delim)
    ensures Sealed(p + q, delim)
    decreases |p|
  {
    if p == [] {
      assert p + q == q;
    } else if p[0] == '\\' {
      assert (p + q)[2..] == p[2..] + q;
      SealedAppend(p[2..], q, delim);
    } else {
      assert (p + q)[1..] == p[1..] + q;
      SealedAppend(p[1..], q, delim);
    }
  }

  /** A sealed piece is cut off whole by the delimiter after it. */
  lemma {:induction false} SplitSealed(p: string, delim: char, rest: string)
    requires delim != '\\' && Sealed(p, delim)
    ensures Split(p, delim) == [p]
    ensures Split(p + [delim] + rest, delim) == [p] + Split(rest, delim)
    decreases |p|
  {
    var s := p + [delim] + rest;
    if p == [] {
      assert s[1..] == rest;
    } else {
      var k := if p[0] == '\\' then 2 else 1;
      assert p[..k] + p[k..] == p;
      assert s[k..] == p[k..] + [delim] + rest && s[..k] == p[..k];
      SplitSealed(p[k..], delim, rest);
      assert Prepend(p[..k], [p[k..]]) == [p];
      assert Prepend(p[..k], [p[k..]] + Split(rest, delim)) == [p] + Split(rest, delim);
    }
  }

  lemma {:induction false} SplitInvertsJoin(parts: seq<string>, delim: char)
    requires delim != '\\' && parts != [] && forall i | 0 <= i < |parts| :: Sealed(parts[i], delim)
    ensures Split(Join(parts, delim), delim) == parts
  {
    if |parts| == 1 {
      SplitSealed(parts[0], delim, []);
    } else {
      SplitSealed(parts[0], delim, Join(parts[1..], delim));
      SplitInvertsJoin(parts[1..], delim);
      assert parts == [parts[0]] + parts[1..];
    }
  }

  lemma {:induction false} EscapedIsSealed(s: string, delim: char)
    requires delim == '|' || delim == ','
    ensures Sealed(Escape(s), delim)
  {
    if s != [] {
      EscapedIsSealed(s[1..], delim);
      var head: string := if IsSpecial(s[0]) then ['\\', s[0]] else [s[0]];
      assert Sealed(head, delim) by {
        assert IsSpecial(s[0]) ==> head[2..] == [];
        assert !IsSpecial(s[0]) ==> head[1..] == [];
      }
      SealedAppend(head, Escape(s[1..]), delim);
    }
  }

  /** Escaping touches nothing but backslashes, bars and commas, and puts one backslash before each. */
  lemma {:induction false} EscapeMarks(s: string)
    ensures |Escape(s)| == |s| + Specials(s)
    ensures Specials(s) == 0 ==> Escape(s) == s
  {
    if s != [] {
      EscapeMarks(s[1..]);
      assert s == [s[0]] + s[1..];
    }
  }

  function Specials(s: string): nat {
    if s == [] then 0 else Specials(s[1..]) + if s[0] in {'\\', '|', ','} then 1 else 0
  }

  // ----- Kinds -----

  function EscapeAll(options: seq<string>): (r: seq<string>)
    ensures |r| == |options| && forall i | 0 <= i < |r| :: r[i] == Escape(options[i])
  {
    seq(|options|, i requires 0 <= i < |options| => Escape(options[i]))
  }

  function UnescapeAll(pieces: seq<string>): (r: seq<string>)
    ensures |r| == |pieces| && forall i | 0 <= i < |r| :: r[i] == Unescape(pieces[i])
  {
    seq(|pieces|, i requires 0 <= i < |pieces| => Unescape(pieces[i]))
  }

  function EncodeKind(k: InputKind): string {
    match k
    case PlainText => "text"
    case Integer => "integer"
    case Number => "number"
    case Boolean => "boolean"
    case Path => "path"
    case Choice(options) => "choice:" + Join(EscapeAll(options), ',')
  }

  function DecodeKind(raw: string): Option<InputKind> {
    if "choice:" <= raw then
      var options := UnescapeAll(Split(raw[7..], ','));
      if [] in options then None else Some(Choice(options))
    else
      var word := Unescape(raw);
      if word == "text" then Some(PlainText)
      else if word == "integer" then Some(Integer)
      else if word == "number" then Some(Number)
      else if word == "boolean" then Some(Boolean)
      else if word == "path" then Some(Path)
      else None
  }

  predicate KindEncodable(k: InputKind) {
    k.Choice? ==> k.options != [] && [] !in k.options
  }

  lemma UnescapeAllInvertsEscapeAll(options: seq<string>)
    ensures UnescapeAll(EscapeAll(options)) == options
  {
    forall i | 0 <= i < |options| ensures Unescape(Escape(options[i])) == options[i] {
      UnescapeInvertsEscape(options[i]);
    }
  }

  /** The option list is recovered, except that no options and one empty option look alike. */
  lemma SplitOptions(options: seq<string>)
    ensures UnescapeAll(Split(Join(EscapeAll(options), ','), ',')) == if options == [] then [[]] else options
  {
    UnescapeAllInvertsEscapeAll(options);
    var es := EscapeAll(options);
    if options == [] {
      assert Split([], ',') == [[]];
    } else {
      forall i | 0 <= i < |es| ensures Sealed(es[i], ',') { EscapedIsSealed(options[i], ','); }
      SplitInvertsJoin(es, ',');
    }
  }

  lemma ChoiceText(options: seq<string>)
    ensures
      var raw := EncodeKind(Choice(options));
      "choice:" <= raw && raw[7..] == Join(EscapeAll(options), ',')
  {}

  /** A kind survives encoding exactly when it is no choice, or a choice of non-empty options. */
  lemma KindRoundTrip(k: InputKind)
    ensures DecodeKind(EncodeKind(k)) == if KindEncodable(k) then Some(k) else None
  {
    match k
    case Choice(options) =>
      ChoiceText(options);
      SplitOptions(options);
    case _ =>
      PlainWord(EncodeKind(k));
  }

  lemma {:induction false} PlainWord(w: string)
    requires forall i | 0 <= i < |w| :: !IsSpecial(w[i])
    ensures Unescape(w) == w && Sealed(w, '|')
  {
    if w != [] {
      PlainWord(w[1..]);
      assert w == [w[0]] + w[1..];
    }
  }

  lemma {:induction false} JoinIsSealed(parts: seq<string>)
    requires forall i | 0 <= i < |parts| :: Sealed(parts[i], '|')
    ensures Sealed(Join(parts, ','), '|')
  {
    if |parts| > 1 {
      JoinIsSealed(parts[1..]);
      assert Sealed([','], '|') by { assert [','][1..] == []; }
      SealedAppend(parts[0], [','], '|');
      SealedAppend(parts[0] + [','], Join(parts[1..], ','), '|');
    }
  }

  lemma KindIsSealed(k: InputKind)
    ensures Sealed(EncodeKind(k), '|')
  {
    match k
    case Choice(options) =>
      var es := EscapeAll(options);
      forall i | 0 <= i < |es| ensures Sealed(es[i], '|') { EscapedIsSealed(options[i], '|'); }
      JoinIsSealed(es);
      PlainWord("choice:");
      SealedAppend("choice:", Join(es, ','), '|');
    case _ =>
      PlainWord(EncodeKind(k));
  }

  // ----- Lines -----

  function Flag(b: bool, yes: string, no: string): string {
    if b then yes else no
  }

  function ReadFlag(s: string, yes: string, no: string): Option<bool> {
    if s == yes then Some(true) else if s == no then Some(false) else None
  }

  function HeaderParts(c: AppContract): seq<string> {
    [Version, "app", Escape(c.name), Escape(c.owner), Flag(c.keepsData, "keeps-data", "stateless"),
     Flag(c.resident, "resident", "one-shot"), Escape(c.goal)]
  }

  function FieldParts(f: InputField): seq<string> {
    [Version, "in", Escape(f.name), EncodeKind(f.kind), Flag(f.required, "required", "optional"), Escape(f.description)]
  }

  function EncodeField(f: InputField): string {
    Join(FieldParts(f), '|')
  }

  function Encode(c: AppContract): seq<string> {
    [Join(HeaderParts(c), '|')] + EncodeFields(c.fields)
  }

  function EncodeFields(fields: seq<InputField>): seq<string> {
    if fields == [] then [] else [EncodeField(fields[0])] + EncodeFields(fields[1..])
  }

  /** The header's part of a contract, with no fields yet. */
  function ReadHeader(parts: seq<string>): Option<AppContract> {
    if |parts| != 7 || parts[0] != Version || parts[1] != "app" then None
    else
      var keeps := ReadFlag(parts[4], "keeps-data", "stateless");
      var resident := ReadFlag(parts[5], "resident", "one-shot");
      var name, owner := Unescape(parts[2]), Unescape(parts[3]);
      if keeps.None? || resident.None? || name == [] || owner == [] then None
      else Some(AppContract(name, owner, keeps.value, resident.value, Unescape(parts[6]), []))
  }

  function ReadField(parts: seq<string>): Option<InputField> {
    if |parts| != 6 || parts[0] != Version || parts[1] != "in" then None
    else
      var name, kind := Unescape(parts[2]), DecodeKind(parts[3]);
      var required := ReadFlag(parts[4], "required", "optional");
      if name == [] || kind.None? || required.None? then None
      else Some(InputField(name, kind.value, Unescape(parts[5]), required.value))
  }

  function DecodeFields(lines: seq<string>): Option<seq<InputField>> {
    if lines == [] then Some([])
    else
      var first := ReadField(Split(lines[0], '|'));
      if first.None? then None
      else
        Continue([first.value], DecodeFields(lines[1..]))
  }

  function Decode(inputs: seq<string>): Option<AppContract> {
    if inputs == [] then None
    else
      var header := ReadHeader(Split(inputs[0], '|'));
      if header.None? then None
      else
        var fields := DecodeFields(inputs[1..]);
        if fields.None? then None else Some(header.value.(fields := fields.value))
  }

  /** `decode`, with its early returns and its accumulating loop. */
  method DecodeLoop(inputs: seq<string>) returns (r: Option<AppContract>)
    ensures r == Decode(inputs)
  {
    hide DecodeKind, Unescape, Split, ReadField;
    if inputs == [] {
      return None;
    }
    var parts := SplitLoop(inputs[0], '|');
    var header := ReadHeader(parts);
    if header.None? {
      return None;
    }
    var rest := inputs[1..];
    var fields: seq<InputField> := [];
    assert rest[0..] == rest;
    assert forall tail: seq<InputField> :: fields + tail == tail;
    ghost var whole := DecodeFields(rest);
    for i := 0 to |rest|
      invariant whole == Continue(fields, DecodeFields(rest[i..]))
    {
      assert rest[i..][1..] == rest[i + 1..];
      var pieces := SplitLoop(rest[i], '|');
      var field := ReadField(pieces);
      if field.None? {
        return None;
      }
      ContinueOne(fields, field.value, DecodeFields(rest[i + 1..]));
      fields := fields + [field.value];
    }
    assert fields + [] == fields;
    r := Some(header.value.(fields := fields));
  }

  function Continue(fields: seq<InputField>, tail: Option<seq<InputField>>): Option<seq<InputField>> {
    if tail.None? then None else Some(fields + tail.value)
  }

  lemma ContinueOne(fields: seq<InputField>, f: InputField, tail: Option<seq<InputField>>)
    ensures Continue(fields, Continue([f], tail)) == Continue(fields + [f], tail)
  {
    assert tail.Some? ==> fields + ([f] + tail.value) == (fields + [f]) + tail.value;
  }

  // ----- The round trip -----

  predicate FieldEncodable(f: InputField) {
    f.name != [] && KindEncodable(f.kind)
  }

  /** What a caller can check before encoding. */
  predicate Encodable(c: AppContract) {
    c.name != [] && c.owner != [] && forall i | 0 <= i < |c.fields| :: FieldEncodable(c.fields[i])
  }

  lemma HeaderWordsAreSealed()
    ensures Sealed(Version, '|') && Sealed("app", '|')
  {
    hide Sealed, Unescape;
    PlainWord(Version);
    PlainWord("app");
  }

  lemma StorageIsSealed(b: bool)
    ensures Sealed(Flag(b, "keeps-data", "stateless"), '|')
  {
    hide Sealed, Unescape;
    PlainWord(Flag(b, "keeps-data", "stateless"));
  }

  lemma LifetimeIsSealed(b: bool)
    ensures Sealed(Flag(b, "resident", "one-shot"), '|')
  {
    hide Sealed, Unescape;
    PlainWord(Flag(b, "resident", "one-shot"));
  }

  lemma FieldWordsAreSealed(b: bool)
    ensures Sealed("in", '|') && Sealed(Flag(b, "required", "optional"), '|')
  {
    hide Sealed, Unescape;
    PlainWord("in");
    PlainWord(Flag(b, "required", "optional"));
  }

  lemma SplitFieldLine(f: InputField)
    ensures Split(EncodeField(f), '|') == FieldParts(f)
  {
    hide Split, Join, Sealed, EncodeKind, Escape, Flag;
    HeaderWordsAreSealed();
    FieldWordsAreSealed(f.required);
    EscapedIsSealed(f.name, '|');
    KindIsSealed(f.kind);
    EscapedIsSealed(f.description, '|');
    SplitInvertsJoin(FieldParts(f), '|');
  }

  lemma SplitHeaderLine(c: AppContract)
    ensures Split(Join(HeaderParts(c), '|'), '|') == HeaderParts(c)
  {
    hide Split, Join, Sealed, Escape, Flag;
    HeaderWordsAreSealed();
    StorageIsSealed(c.keepsData);
    LifetimeIsSealed(c.resident);
    EscapedIsSealed(c.name, '|');
    EscapedIsSealed(c.owner, '|');
    EscapedIsSealed(c.goal, '|');
    SplitInvertsJoin(HeaderParts(c), '|');
  }

  lemma FieldRoundTrip(f: InputField)
    ensures ReadField(Split(EncodeField(f), '|')) == if FieldEncodable(f) then Some(f) else None
  {
    hide Split, Join, Escape, Unescape, EncodeKind, DecodeKind;
    SplitFieldLine(f);
    UnescapeInvertsEscape(f.name);
    UnescapeInvertsEscape(f.description);
    KindRoundTrip(f.kind);
  }

  lemma HeaderRoundTrip(c: AppContract)
    ensures ReadHeader(Split(Join(HeaderParts(c), '|'), '|'))
      == if c.name != [] && c.owner != [] then Some(c.(fields := [])) else None
  {
    hide Split, Join, Escape, Unescape;
    SplitHeaderLine(c);
    UnescapeInvertsEscape(c.name);
    UnescapeInvertsEscape(c.owner);
    UnescapeInvertsEscape(c.goal);
  }

  lemma {:induction false} FieldsRoundTrip(fields: seq<InputField>)
    ensures DecodeFields(EncodeFields(fields))
      == if forall i | 0 <= i < |fields| :: FieldEncodable(fields[i]) then Some(fields) else None
  {
    hide EncodeField, ReadField, FieldEncodable;
    if fields != [] {
      FieldRoundTrip(fields[0]);
      FieldsRoundTrip(fields[1..]);
      assert EncodeFields(fields)[1..] == EncodeFields(fields[1..]);
      assert fields == [fields[0]] + fields[1..];
    }
  }

  /**
   * For every contract, with any text at all: encoding then decoding gives the contract back when its
   * names, owner and options are non-empty, and is refused outright otherwise.
   */
  lemma RoundTrip(c: AppContract)
    ensures Decode(Encode(c)) == if Encodable(c) then Some(c) else None
  {
    hide Split, Join, ReadHeader;
    HeaderRoundTrip(c);
    FieldsRoundTrip(c.fields);
    assert Encode(c)[1..] == EncodeFields(c.fields);
  }

  lemma {:induction false} DecodedFieldsEncodable(lines: seq<string>)
    ensures
      var r := DecodeFields(lines);
      r.Some? ==> |r.value| == |lines| && forall i | 0 <= i < |r.value| :: FieldEncodable(r.value[i])
  {
    hide Split, Unescape;
    if lines != [] {
      DecodedFieldsEncodable(lines[1..]);
    }
  }

  /** What is accepted has the shape of an encoding: one header line of seven pieces, then one of six per field. */
  lemma AcceptedShape(inputs: seq<string>)
    requires Decode(inputs).Some?
    ensures |inputs| == 1 + |Decode(inputs).value.fields|
    ensures
      var parts := Split(inputs[0], '|');
      |parts| == 7 && parts[0] == "hyperion-app/v4" && parts[1] == "app" &&
      parts[4] in {"keeps-data", "stateless"} && parts[5] in {"resident", "one-shot"}
    ensures forall i | 1 <= i < |inputs| ::
      var parts := Split(inputs[i], '|');
      |parts| == 6 && parts[0] == "hyperion-app/v4" && parts[1] == "in" && parts[4] in {"required", "optional"}
  {
    hide Split, Unescape, DecodeKind;
    FieldShapes(inputs[1..]);
    assert forall i | 1 <= i < |inputs| :: inputs[i] == inputs[1..][i - 1];
  }

  lemma {:induction false} FieldShapes(lines: seq<string>)
    requires DecodeFields(lines).Some?
    ensures |DecodeFields(lines).value| == |lines|
    ensures forall i | 0 <= i < |lines| :: FieldShape(Split(lines[i], '|'))
  {
    hide Split, Unescape, DecodeKind;
    if lines != [] {
      FieldShapes(lines[1..]);
      assert lines == [lines[0]] + lines[1..];
    }
  }

  predicate FieldShape(parts: seq<string>) {
    |parts| == 6 && parts[0] == "hyperion-app/v4" && parts[1] == "in" && parts[4] in {"required", "optional"}
  }

  /** Whatever `decode` accepts re-encodes to something that decodes to the same contract. */
  lemma DecodeIsStable(inputs: seq<string>)
    ensures
      var r := Decode(inputs);
      r.Some? ==> Encodable(r.value) && Decode(Encode(r.value)) == r
  {
    hide DecodeFields, ReadHeader, Encode, Split;
    var r := Decode(inputs);
    if r.Some? {
      DecodedFieldsEncodable(inputs[1..]);
      HeaderNamesPresent(Split(inputs[0], '|'));
      RoundTrip(r.value);
    }
  }

  lemma HeaderNamesPresent(parts: seq<string>)
    ensures
      var h := ReadHeader(parts);
      h.Some? ==> h.value.name != [] && h.value.owner != [] && h.value.fields == []
  {}

  // ----- When two contracts encode alike -----

  /** A choice of nothing written as a choice of one empty option. */
  function NormalKind(k: InputKind): InputKind {
    if k == Choice([]) then Choice([[]]) else k
  }

  ghost predicate SameField(f: InputField, g: InputField) {
    f.(kind := NormalKind(f.kind)) == g.(kind := NormalKind(g.kind))
  }

  ghost predicate SameUpToEmptyChoices(a: AppContract, b: AppContract) {
    && a.(fields := []) == b.(fields := [])
    && |a.fields| == |b.fields| && forall i | 0 <= i < |a.fields| :: SameField(a.fields[i], b.fields[i])
  }

  lemma KindTextStarts(k: InputKind)
    ensures EncodeKind(k) != [] && (EncodeKind(k)[0] == 'c' <==> k.Choice?)
  {}

  lemma KindsEncodeAlike(k: InputKind, l: InputKind)
    ensures EncodeKind(k) == EncodeKind(l) <==> NormalKind(k) == NormalKind(l)
  {
    KindTextStarts(k);
    KindTextStarts(l);
    if k.Choice? && l.Choice? {
      ChoicesEncodeAlike(k.options, l.options);
    }
  }

  lemma ChoicesEncodeAlike(o: seq<string>, p: seq<string>)
    ensures EncodeKind(Choice(o)) == EncodeKind(Choice(p)) <==> NormalKind(Choice(o)) == NormalKind(Choice(p))
  {
    hide Join, Split;
    ChoiceText(o);
    ChoiceText(p);
    SplitOptions(o);
    SplitOptions(p);
    EmptyChoices();
  }

  lemma EmptyChoices()
    ensures EncodeKind(Choice([])) == EncodeKind(Choice([[]]))
  {
    assert EscapeAll([]) == [] && EscapeAll([[]]) == [[]];
  }

  lemma EscapesDiffer(s: string, t: string)
    ensures Escape(s) == Escape(t) <==> s == t
  {
    UnescapeInvertsEscape(s);
    UnescapeInvertsEscape(t);
  }

  lemma FieldsEncodeAlike(f: InputField, g: InputField)
    ensures EncodeField(f) == EncodeField(g) <==> SameField(f, g)
  {
    hide Split, Join, Escape, EncodeKind;
    SplitFieldLine(f);
    SplitFieldLine(g);
    EscapesDiffer(f.name, g.name);
    EscapesDiffer(f.description, g.description);
    KindsEncodeAlike(f.kind, g.kind);
    var p, q := FieldParts(f), FieldParts(g);
    if EncodeField(f) == EncodeField(g) {
      assert p[2] == q[2] && p[3] == q[3] && p[4] == q[4] && p[5] == q[5];
    }
  }

  lemma HeadersEncodeAlike(a: AppContract, b: AppContract)
    ensures Join(HeaderParts(a), '|') == Join(HeaderParts(b), '|') <==> a.(fields := []) == b.(fields := [])
  {
    hide Split, Join, Escape;
    SplitHeaderLine(a);
    SplitHeaderLine(b);
    EscapesDiffer(a.name, b.name);
    EscapesDiffer(a.owner, b.owner);
    EscapesDiffer(a.goal, b.goal);
    var p, q := HeaderParts(a), HeaderParts(b);
    if Join(p, '|') == Join(q, '|') {
      assert p[2] == q[2] && p[3] == q[3] && p[4] == q[4] && p[5] == q[5] && p[6] == q[6];
    }
  }

  lemma {:induction false} FieldListAt(fields: seq<InputField>)
    ensures |EncodeFields(fields)| == |fields|
    ensures forall i | 0 <= i < |fields| :: EncodeFields(fields)[i] == EncodeField(fields[i])
  {
    hide EncodeField;
    if fields != [] {
      FieldListAt(fields[1..]);
    }
  }

  lemma JoinStep(parts: seq<string>, delim: char)
    requires |parts| > 1
    ensures Join(parts, delim) == parts[0] + [delim] + Join(parts[1..], delim)
  {}

  lemma JoinSix(a: string, b: string, c: string, d: string, e: string, f: string)
    ensures Join([a, b, c, d, e, f], '|') == a + "|" + b + "|" + c + "|" + d + "|" + e + "|" + f
  {
    hide Join;
    var p2: seq<string> := [e, f];
    var p3: seq<string> := [d, e, f];
    var p4: seq<string> := [c, d, e, f];
    var p5: seq<string> := [b, c, d, e, f];
    var p6: seq<string> := [a, b, c, d, e, f];
    assert p6[1..] == p5 && p5[1..] == p4 && p4[1..] == p3 && p3[1..] == p2 && p2[1..] == [f];
    JoinOne(f);
    JoinStep(p2, '|');
    JoinStep(p3, '|');
    JoinStep(p4, '|');
    JoinStep(p5, '|');
    JoinStep(p6, '|');
  }

  lemma JoinOne(f: string)
    ensures Join([f], '|') == f
  {}

  /** The line of a field, spelt out. */
  lemma FieldLineIs(f: InputField)
    ensures EncodeField(f) ==
      "hyperion-app/v4" + "|" + "in" + "|" + Escape(f.name) + "|" + EncodeKind(f.kind) + "|"
      + (if f.required then "required" else "optional") + "|" + Escape(f.description)
  {
    hide Join, Escape, EncodeKind;
    JoinSix("hyperion-app/v4", "in", Escape(f.name), EncodeKind(f.kind),
      if f.required then "required" else "optional", Escape(f.description));
  }

  /** The line of a header, spelt out. */
  lemma HeaderLineIs(c: AppContract)
    ensures Encode(c)[0] ==
      "hyperion-app/v4" + "|" + ("app" + "|" + Escape(c.name) + "|" + Escape(c.owner) + "|"
      + (if c.keepsData then "keeps-data" else "stateless") + "|"
      + (if c.resident then "resident" else "one-shot") + "|" + Escape(c.goal))
  {
    hide Join, Escape;
    var parts := HeaderParts(c);
    assert parts[1..] == ["app", Escape(c.name), Escape(c.owner), if c.keepsData then "keeps-data" else "stateless",
                          if c.resident then "resident" else "one-shot", Escape(c.goal)];
    JoinStep(parts, '|');
    JoinSix("app", Escape(c.name), Escape(c.owner), if c.keepsData then "keeps-data" else "stateless",
      if c.resident then "resident" else "one-shot", Escape(c.goal));
  }

  /** The word of each kind, and of a choice with one option. */
  lemma KindWords(option: string)
    ensures EncodeKind(PlainText) == "text" && EncodeKind(Integer) == "integer" && EncodeKind(Number) == "number"
    ensures EncodeKind(Boolean) == "boolean" && EncodeKind(Path) == "path"
    ensures EncodeKind(Choice([option])) == "choice:" + Escape(option)
  {
    hide Escape;
    assert EscapeAll([option]) == [Escape(option)];
  }

  /** A choice with more options puts each, escaped, before a comma. */
  lemma ChoiceWords(option: string, options: seq<string>)
    requires options != []
    ensures EncodeKind(Choice([option] + options)) ==
      "choice:" + Escape(option) + "," + EncodeKind(Choice(options))[7..]
  {
    hide Escape, Join;
    var all := [option] + options;
    var pieces := EscapeAll(all);
    assert pieces[0] == Escape(option) && pieces[1..] == EscapeAll(options);
    JoinStep(pieces, ',');
    var rest := Join(EscapeAll(options), ',');
    assert ("choice:" + rest)[7..] == rest;
  }

  /** The only contracts that encode alike are those differing in a choice of nothing. */
  lemma EncodingsDiffer(a: AppContract, b: AppContract)
    ensures Encode(a) == Encode(b) <==> SameUpToEmptyChoices(a, b)
  {
    hide EncodeFields, EncodeField, HeaderParts, Join, SameField;
    HeadersEncodeAlike(a, b);
    FieldListAt(a.fields);
    FieldListAt(b.fields);
    var p, q := Encode(a), Encode(b);
    assert p[1..] == EncodeFields(a.fields) && q[1..] == EncodeFields(b.fields);
    if |a.fields| == |b.fields| {
      forall i | 0 <= i < |a.fields|
        ensures EncodeFields(a.fields)[i] == EncodeFields(b.fields)[i] <==> SameField(a.fields[i], b.fields[i])
      {
        FieldsEncodeAlike(a.fields[i], b.fields[i]);
      }
    }
    if SameUpToEmptyChoices(a, b) {
      assert EncodeFields(a.fields) == EncodeFields(b.fields);
    }
  }
}
