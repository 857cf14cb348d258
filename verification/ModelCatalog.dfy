/**
The signed model catalog (crates/hyperion-ai-runtime/src/model_catalog.rs): which catalogs the signed
bytes tell apart.  Strings are their UTF-8 bytes, and a catalog that could be held is one of texts.
*/
module ModelCatalog {
  import opened Bytes
  import opened Utf8

  datatype ModelFormat = Llama2CBinary | Gguf | Safetensors

  datatype Entry = Entry(
    name: seq<Byte>,
    repo: seq<Byte>,
    revision: seq<Byte>,
    filename: seq<Byte>,
    format: ModelFormat,
    blake3Hex: seq<Byte>)

  type Catalog = seq<Entry>

  function FormatCode(f: ModelFormat): nat {
    match f
    case Llama2CBinary => 0
    case Gguf => 1
    case Safetensors => 2
  }

  function SignedFields(e: Entry): seq<seq<Byte>> {
    [e.name, e.repo, e.revision, e.filename, e.blake3Hex]
  }

  /** Each field followed by a NUL. */
  function Terminated(fields: seq<seq<Byte>>): seq<Byte> {
    if fields == [] then [] else fields[0] + [0] + Terminated(fields[1..])
  }

  function EntryBytes(e: Entry): (bs: seq<Byte>)
    ensures |bs| >= 8
  {
    Terminated(SignedFields(e)) + LeBytes(FormatCode(e.format), 8)
  }

  function CatalogBytes(c: Catalog): seq<Byte> {
    if c == [] then [] else EntryBytes(c[0]) + CatalogBytes(c[1..])
  }

  /** An entry's bytes, spelt out: its five strings in order, each ended by a NUL, and its format as eight bytes. */
  lemma EntrySpelling(e: Entry)
    ensures
      var code: Byte := if e.format == Llama2CBinary then 0 else if e.format == Gguf then 1 else 2;
      EntryBytes(e) ==
        e.name + [0] + e.repo + [0] + e.revision + [0] + e.filename + [0] + e.blake3Hex + [0]
        + [code, 0, 0, 0, 0, 0, 0, 0]
  {
    hide Terminated;
    FiveFields(e);
    var n := FormatCode(e.format);
    assert n / 256 == 0 && n % 256 == n;
    ZeroBytes(7);
    assert LeBytes(n, 8) == [n] + LeBytes(0, 7);
    assert LeBytes(0, 7) == [0, 0, 0, 0, 0, 0, 0];
  }

  lemma {:induction false} ZeroBytes(k: nat)
    ensures forall i | 0 <= i < k :: LeBytes(0, k)[i] == 0
  {
    if k > 0 {
      ZeroBytes(k - 1);
    }
  }

  /** `canonical_bytes`: the loop over entries, each an inner loop over its fields, appends `CatalogBytes`. */
  method CanonicalBytes(c: Catalog) returns (bytes: seq<Byte>)
    ensures bytes == CatalogBytes(c)
  {
    hide EntryBytes, CatalogBytes;
    bytes := [];
    Unfold(c, []);
    for i := 0 to |c|
      invariant bytes + CatalogBytes(c[i..]) == CatalogBytes(c)
    {
      Unfold(c[i..], []);
      assert c[i..][1..] == c[i + 1..];
      bytes := AppendEntry(bytes, c[i]);
    }
    Unfold(c[|c|..], []);
  }

  method AppendEntry(start: seq<Byte>, e: Entry) returns (bytes: seq<Byte>)
    ensures bytes == start + EntryBytes(e)
  {
    bytes := AppendFields(start, SignedFields(e));
    bytes := bytes + LeBytes(FormatCode(e.format), 8);
  }

  method AppendFields(start: seq<Byte>, fields: seq<seq<Byte>>) returns (bytes: seq<Byte>)
    ensures bytes == start + Terminated(fields)
  {
    hide Terminated;
    bytes := start;
    for k := 0 to |fields|
      invariant bytes + Terminated(fields[k..]) == start + Terminated(fields)
    {
      Unfold([], fields[k..]);
      assert fields[k..][1..] == fields[k + 1..];
      ghost var rest := Terminated(fields[k + 1..]);
      assert bytes + (fields[k] + [0] + rest) == bytes + fields[k] + [0] + rest;
      bytes := bytes + fields[k];
      bytes := bytes + [0];
    }
    Unfold([], fields[|fields|..]);
    assert bytes + [] == bytes;
  }

  lemma Unfold(c: Catalog, fields: seq<seq<Byte>>)
    ensures CatalogBytes(c) == if c == [] then [] else EntryBytes(c[0]) + CatalogBytes(c[1..])
    ensures Terminated(fields) == if fields == [] then [] else fields[0] + [0] + Terminated(fields[1..])
  {}

  predicate NulFree(s: seq<Byte>) {
    0 !in s
  }

  predicate EntryNulFree(e: Entry) {
    NulFree(e.name) && NulFree(e.repo) && NulFree(e.revision) && NulFree(e.filename) && NulFree(e.blake3Hex)
  }

  predicate CatalogNulFree(c: Catalog) {
    forall e | e in c :: EntryNulFree(e)
  }

  // ----- Reading NUL-free catalogs -----

  function FirstNul(s: seq<Byte>): nat {
    if s == [] || s[0] == 0 then 0 else 1 + FirstNul(s[1..])
  }

  lemma {:induction false} FirstNulEndsField(a: seq<Byte>, rest: seq<Byte>)
    requires NulFree(a)
    ensures FirstNul(a + [0] + rest) == |a|
  {
    if a == [] {
      assert (a + [0] + rest)[0] == 0;
    } else {
      assert (a + [0] + rest)[1..] == a[1..] + [0] + rest;
      FirstNulEndsField(a[1..], rest);
    }
  }

  lemma {:induction false} FirstNulFound(s: seq<Byte>)
    requires !NulFree(s)
    ensures FirstNul(s) < |s| && s[FirstNul(s)] == 0
  {
    if s[0] != 0 {
      assert s == [s[0]] + s[1..];
      FirstNulFound(s[1..]);
    }
  }

  lemma FieldEndsAtNul(a: seq<Byte>, b: seq<Byte>, restA: seq<Byte>, restB: seq<Byte>)
    requires NulFree(a) && NulFree(b) && a + [0] + restA == b + [0] + restB
    ensures a == b && restA == restB
  {
    var whole := a + [0] + restA;
    FirstNulEndsField(a, restA);
    FirstNulEndsField(b, restB);
    assert a == whole[..|a|] && restA == whole[|a| + 1..];
    assert b == whole[..|b|] && restB == whole[|b| + 1..];
  }

  lemma {:induction false} FieldsEndAtNuls(fs: seq<seq<Byte>>, gs: seq<seq<Byte>>, restA: seq<Byte>, restB: seq<Byte>)
    requires |fs| == |gs| && (forall f | f in fs :: NulFree(f)) && (forall g | g in gs :: NulFree(g))
    requires Terminated(fs) + restA == Terminated(gs) + restB
    ensures fs == gs && restA == restB
  {
    if fs == [] {
      assert [] + restA == restA && [] + restB == restB;
    } else {
      var ta, tb := Terminated(fs[1..]) + restA, Terminated(gs[1..]) + restB;
      assert Terminated(fs) + restA == fs[0] + [0] + ta;
      assert Terminated(gs) + restB == gs[0] + [0] + tb;
      FieldEndsAtNul(fs[0], gs[0], ta, tb);
      FieldsEndAtNuls(fs[1..], gs[1..], restA, restB);
      assert fs == [fs[0]] + fs[1..] && gs == [gs[0]] + gs[1..];
    }
  }

  lemma FormatBytesDiffer(f: ModelFormat, g: ModelFormat)
    requires LeBytes(FormatCode(f), 8) == LeBytes(FormatCode(g), 8)
    ensures f == g
  {
    assert LeBytes(FormatCode(f), 8)[0] == FormatCode(f);
    assert LeBytes(FormatCode(g), 8)[0] == FormatCode(g);
  }

  lemma EntryEnds(a: Entry, b: Entry, restA: seq<Byte>, restB: seq<Byte>)
    requires EntryNulFree(a) && EntryNulFree(b) && EntryBytes(a) + restA == EntryBytes(b) + restB
    ensures a == b && restA == restB
  {
    var fa, fb := LeBytes(FormatCode(a.format), 8), LeBytes(FormatCode(b.format), 8);
    assert EntryBytes(a) + restA == Terminated(SignedFields(a)) + (fa + restA);
    assert EntryBytes(b) + restB == Terminated(SignedFields(b)) + (fb + restB);
    FieldsEndAtNuls(SignedFields(a), SignedFields(b), fa + restA, fb + restB);
    assert fa == (fa + restA)[..8] && fb == (fb + restB)[..8];
    assert restA == (fa + restA)[8..] && restB == (fb + restB)[8..];
    FormatBytesDiffer(a.format, b.format);
    var x, y := SignedFields(a), SignedFields(b);
    assert x[0] == y[0] && x[1] == y[1] && x[2] == y[2] && x[3] == y[3] && x[4] == y[4];
  }

  /** Among catalogs whose strings hold no NUL, equal signed bytes mean the same entries in the same order. */
  lemma {:induction false} NulFreeCatalogsInjective(a: Catalog, b: Catalog)
    requires CatalogNulFree(a) && CatalogNulFree(b)
    ensures CatalogBytes(a) == CatalogBytes(b) ==> a == b
  {
    if CatalogBytes(a) == CatalogBytes(b) && a != [] && b != [] {
      EntryEnds(a[0], b[0], CatalogBytes(a[1..]), CatalogBytes(b[1..]));
      NulFreeCatalogsInjective(a[1..], b[1..]);
      assert a == [a[0]] + a[1..] && b == [b[0]] + b[1..];
    }
  }

  // ----- Exactly which catalogs their signature pins down -----

  predicate AllText(fields: seq<seq<Byte>>) {
    forall i | 0 <= i < |fields| :: IsText(fields[i])
  }

  /** Every string of the catalog is text. */
  predicate CatalogIsText(c: Catalog) {
    forall i | 0 <= i < |c| :: AllText(SignedFields(c[i]))
  }

  /** No other catalog that could be held has these signed bytes. */
  ghost predicate PinnedDown(c: Catalog) {
    forall d: Catalog | CatalogIsText(d) && CatalogBytes(d) == CatalogBytes(c) :: d == c
  }

  function Nuls(s: seq<Byte>): nat {
    if s == [] then 0 else (if s[0] == 0 then 1 else 0) + Nuls(s[1..])
  }

  lemma {:induction false} NulsAppend(a: seq<Byte>, b: seq<Byte>)
    ensures Nuls(a + b) == Nuls(a) + Nuls(b)
  {
    if a == [] {
      assert a + b == b;
    } else {
      assert (a + b)[1..] == a[1..] + b;
      NulsAppend(a[1..], b);
    }
  }

  lemma {:induction false} NoNulsIsNulFree(s: seq<Byte>)
    ensures Nuls(s) == 0 <==> NulFree(s)
  {
    if s != [] {
      NoNulsIsNulFree(s[1..]);
      assert s == [s[0]] + s[1..];
    }
  }

  lemma {:induction false} NulsTerminated(fields: seq<seq<Byte>>)
    ensures Nuls(Terminated(fields)) >= |fields|
    ensures Nuls(Terminated(fields)) == |fields| <==> forall f | f in fields :: NulFree(f)
  {
    if fields != [] {
      NulsTerminated(fields[1..]);
      NulsAppend(fields[0], [0]);
      NulsAppend(fields[0] + [0], Terminated(fields[1..]));
      NoNulsIsNulFree(fields[0]);
      assert Nuls([0]) == 1 by { assert [0 as Byte][1..] == []; }
      assert fields == [fields[0]] + fields[1..];
    }
  }

  lemma {:induction false} ZeroNuls(k: nat)
    ensures Nuls(LeBytes(0, k)) == k
  {
    if k > 0 {
      assert LeBytes(0, k)[1..] == LeBytes(0, k - 1);
      ZeroNuls(k - 1);
    }
  }

  lemma FormatNuls(f: ModelFormat)
    ensures 7 <= Nuls(LeBytes(FormatCode(f), 8)) <= 8
  {
    var bs := LeBytes(FormatCode(f), 8);
    assert FormatCode(f) / 256 == 0;
    assert bs[1..] == LeBytes(0, 7);
    ZeroNuls(7);
  }

  lemma EntryNuls(e: Entry)
    ensures Nuls(EntryBytes(e)) >= 12
    ensures Nuls(EntryBytes(e)) == 5 + Nuls(LeBytes(FormatCode(e.format), 8)) <==> EntryNulFree(e)
    ensures EntryNulFree(e) ==> Nuls(EntryBytes(e)) <= 13
  {
    NulsAppend(Terminated(SignedFields(e)), LeBytes(FormatCode(e.format), 8));
    NulsTerminated(SignedFields(e));
    FormatNuls(e.format);
    var fs := SignedFields(e);
    assert (forall f | f in fs :: NulFree(f)) <==> EntryNulFree(e) by {
      assert fs[0] in fs && fs[1] in fs && fs[2] in fs && fs[3] in fs && fs[4] in fs;
    }
  }

  lemma LastFormat(a: Entry, b: Entry)
    requires EntryBytes(a) == EntryBytes(b)
    ensures a.format == b.format
  {
    var fa, fb := LeBytes(FormatCode(a.format), 8), LeBytes(FormatCode(b.format), 8);
    var bs := EntryBytes(a);
    assert fa == bs[|bs| - 8..] && fb == EntryBytes(b)[|bs| - 8..];
    FormatBytesDiffer(a.format, b.format);
  }

  /** One NUL-free entry: counting NULs leaves no room for any other catalog. */
  lemma SingleEntryPinned(e: Entry, d: Catalog)
    requires EntryNulFree(e) && CatalogBytes(d) == CatalogBytes([e])
    ensures d == [e]
  {
    assert CatalogBytes([e]) == EntryBytes(e);
    EntryNuls(e);
    if d != [] {
      var rest := CatalogBytes(d[1..]);
      NulsAppend(EntryBytes(d[0]), rest);
      EntryNuls(d[0]);
      if |d| > 1 {
        NulsAppend(EntryBytes(d[1]), CatalogBytes(d[1..][1..]));
        EntryNuls(d[1]);
      } else {
        assert CatalogBytes(d) == EntryBytes(d[0]);
        LastFormat(d[0], e);
        assert CatalogNulFree([e]) && CatalogNulFree(d);
        NulFreeCatalogsInjective(d, [e]);
      }
    }
  }

  /** Where one field ends and the next begins can move, as long as the bytes of the two stay the same. */
  lemma {:induction false} MoveBoundary(fs: seq<seq<Byte>>, i: nat, p: seq<Byte>, q: seq<Byte>)
    requires i + 1 < |fs| && p + [0] + q == fs[i] + [0] + fs[i + 1]
    ensures Terminated(fs[i := p][i + 1 := q]) == Terminated(fs)
  {
    var gs := fs[i := p][i + 1 := q];
    if i == 0 {
      assert gs[1..][1..] == fs[1..][1..];
      var rest := Terminated(fs[1..][1..]);
      assert Terminated(fs) == (fs[0] + [0] + fs[1]) + [0] + rest;
      assert Terminated(gs) == (p + [0] + q) + [0] + rest;
    } else {
      assert gs[1..] == fs[1..][i - 1 := p][i := q];
      MoveBoundary(fs[1..], i - 1, p, q);
    }
  }

  lemma JoinTexts(a: seq<Byte>, b: seq<Byte>)
    ensures IsText(a) && IsText(b) ==> IsText(a + [0] + b)
  {
    hide IsText;
    AsciiIsText([0]);
    if IsText(a) && IsText(b) {
      TextAppends(a, [0]);
      TextAppends(a + [0], b);
    }
  }

  lemma CutTexts(x: seq<Byte>, y: seq<Byte>)
    ensures IsText(x + [0] + y) ==> IsText(x) && IsText(y)
  {
    hide IsText;
    if IsText(x + [0] + y) {
      TextCutsAtNul(x, y);
    }
  }

  /** A NUL inside a string can be read as the end of that field, moving the rest into a neighbour. */
  lemma ShiftFields(fs: seq<seq<Byte>>, i: nat) returns (gs: seq<seq<Byte>>)
    requires |fs| >= 2 && i < |fs| && !NulFree(fs[i])
    ensures |gs| == |fs| && gs != fs && Terminated(gs) == Terminated(fs)
    ensures AllText(fs) ==> AllText(gs)
  {
    hide Terminated, IsText, NulFree;
    var k := FirstNul(fs[i]);
    FirstNulFound(fs[i]);
    var x, y := fs[i][..k], fs[i][k + 1..];
    assert fs[i] == x + [0] + y;
    CutTexts(x, y);
    if i + 1 < |fs| {
      var q := y + [0] + fs[i + 1];
      MoveBoundary(fs, i, x, q);
      JoinTexts(y, fs[i + 1]);
      gs := fs[i := x][i + 1 := q];
      assert gs[i] == x;
    } else {
      var p := fs[i - 1] + [0] + x;
      MoveBoundary(fs, i - 1, p, y);
      JoinTexts(fs[i - 1], x);
      gs := fs[i - 1 := p][i := y];
      assert gs[i] == y;
    }
  }

  lemma ShiftField(e: Entry) returns (d: Entry)
    requires !EntryNulFree(e)
    ensures d != e && EntryBytes(d) == EntryBytes(e)
    ensures AllText(SignedFields(e)) ==> AllText(SignedFields(d))
  {
    hide Terminated, LeBytes, NulFree, AllText;
    var i := if !NulFree(e.name) then 0 else if !NulFree(e.repo) then 1 else if !NulFree(e.revision) then 2
             else if !NulFree(e.filename) then 3 else 4;
    var gs := ShiftFields(SignedFields(e), i);
    d := Entry(gs[0], gs[1], gs[2], gs[3], e.format, gs[4]);
    assert SignedFields(d) == gs;
  }

  lemma FiveFields(e: Entry)
    ensures Terminated(SignedFields(e)) ==
      e.name + [0] + e.repo + [0] + e.revision + [0] + e.filename + [0] + e.blake3Hex + [0]
  {
    var f0: seq<seq<Byte>> := SignedFields(e);
    var f1: seq<seq<Byte>> := [e.repo, e.revision, e.filename, e.blake3Hex];
    var f2: seq<seq<Byte>> := [e.revision, e.filename, e.blake3Hex];
    var f3: seq<seq<Byte>> := [e.filename, e.blake3Hex];
    var f4: seq<seq<Byte>> := [e.blake3Hex];
    assert f0[1..] == f1 && f1[1..] == f2 && f2[1..] == f3 && f3[1..] == f4;
    assert Terminated(f4[1..]) == [];
    var t4 := Terminated(f4);
    assert t4 == e.blake3Hex + [0];
    var t3 := Terminated(f3);
    assert t3 == e.filename + [0] + t4;
    var t2 := Terminated(f2);
    assert t2 == e.revision + [0] + t3;
  }

  /** Two neighbouring entries can be read as one whose last string swallows the boundary, and that string is text. */
  lemma MergeEntries(a: Entry, b: Entry) returns (m: Entry)
    ensures EntryBytes(m) == EntryBytes(a) + EntryBytes(b)
    ensures AllText(SignedFields(a)) && AllText(SignedFields(b)) ==> AllText(SignedFields(m))
  {
    hide LeBytes, IsText, AllText;
    var fa := LeBytes(FormatCode(a.format), 8);
    var head := b.name + [0] + b.repo + [0] + b.revision + [0] + b.filename + [0] + b.blake3Hex;
    m := Entry(a.name, a.repo, a.revision, a.filename, b.format, a.blake3Hex + [0] + fa + head);
    FiveFields(a);
    FiveFields(b);
    FiveFields(m);
    MergedIsText(a, b);
  }

  lemma FormatIsText(f: ModelFormat)
    ensures IsText(LeBytes(FormatCode(f), 8))
  {
    hide IsText;
    SmallBytes(FormatCode(f), 8);
    AsciiIsText(LeBytes(FormatCode(f), 8));
  }

  lemma {:induction false} SmallBytes(n: nat, k: nat)
    requires n < 128
    ensures forall i | 0 <= i < k :: LeBytes(n, k)[i] <= 0x7F
  {
    if k > 0 {
      assert n / 256 == 0;
      SmallBytes(n / 256, k - 1);
    }
  }

  lemma MergedIsText(a: Entry, b: Entry)
    ensures AllText(SignedFields(a)) && AllText(SignedFields(b)) ==>
      var fa := LeBytes(FormatCode(a.format), 8);
      var head := b.name + [0] + b.repo + [0] + b.revision + [0] + b.filename + [0] + b.blake3Hex;
      AllText([a.name, a.repo, a.revision, a.filename, a.blake3Hex + [0] + fa + head])
  {
    hide IsText, LeBytes;
    var x, y := SignedFields(a), SignedFields(b);
    if AllText(x) && AllText(y) {
      assert IsText(x[0]) && IsText(x[1]) && IsText(x[2]) && IsText(x[3]) && IsText(x[4]);
      assert IsText(y[0]) && IsText(y[1]) && IsText(y[2]) && IsText(y[3]) && IsText(y[4]);
      var fa := LeBytes(FormatCode(a.format), 8);
      var head := b.name + [0] + b.repo + [0] + b.revision + [0] + b.filename + [0] + b.blake3Hex;
      JoinTexts(b.name, b.repo);
      JoinTexts(b.name + [0] + b.repo, b.revision);
      JoinTexts(b.name + [0] + b.repo + [0] + b.revision, b.filename);
      JoinTexts(b.name + [0] + b.repo + [0] + b.revision + [0] + b.filename, b.blake3Hex);
      FormatIsText(a.format);
      JoinTexts(a.blake3Hex, fa);
      TextAppends(a.blake3Hex + [0] + fa, head);
    }
  }

  lemma {:induction false} ReplaceEntry(c: Catalog, i: nat, d: Entry)
    requires i < |c| && EntryBytes(d) == EntryBytes(c[i])
    ensures CatalogBytes(c[i := d]) == CatalogBytes(c)
  {
    if i > 0 {
      assert c[i := d][1..] == c[1..][i - 1 := d];
      ReplaceEntry(c[1..], i - 1, d);
    } else {
      assert c[i := d][1..] == c[1..];
    }
  }

  lemma MergeFirstTwo(c: Catalog) returns (d: Catalog)
    requires |c| >= 2
    ensures CatalogBytes(d) == CatalogBytes(c) && |d| == |c| - 1
    ensures CatalogIsText(c) ==> CatalogIsText(d)
  {
    hide EntryBytes, AllText;
    var m := MergeEntries(c[0], c[1]);
    d := [m] + c[2..];
    assert d[1..] == c[2..] && c[1..][1..] == c[2..];
    assert CatalogBytes(d) == EntryBytes(m) + CatalogBytes(c[2..]);
    assert CatalogBytes(c[1..]) == EntryBytes(c[1]) + CatalogBytes(c[2..]);
    assert CatalogBytes(c) == EntryBytes(c[0]) + CatalogBytes(c[1..]);
  }

  /**
   * A catalog of texts is the only one its signature can mean exactly when it has at most one entry and no
   * string of it holds a NUL; otherwise another catalog of texts has the same signed bytes.
   */
  lemma PinnedDownIff(c: Catalog)
    requires CatalogIsText(c)
    ensures PinnedDown(c) <==> |c| <= 1 && CatalogNulFree(c)
  {
    hide EntryBytes, AllText;
    if |c| >= 2 {
      var d := MergeFirstTwo(c);
      assert |d| != |c|;
    } else if !CatalogNulFree(c) {
      var d := ShiftField(c[0]);
      ReplaceEntry(c, 0, d);
      assert CatalogIsText(c[0 := d]) && c[0 := d] != c;
    } else {
      forall d: Catalog | CatalogBytes(d) == CatalogBytes(c) ensures d == c {
        if c != [] {
          assert c == [c[0]];
          SingleEntryPinned(c[0], d);
        }
      }
    }
  }
}
