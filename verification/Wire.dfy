/**
The wire form of a capability token (crates/hyperion-capability/src/wire.rs): the bytes a signature
covers, and what becomes of a token's deadline when it crosses a process boundary.

Instants are nanoseconds.  Signature verification is a parameter.
*/
module Wire {
  import opened Common
  import opened Bytes
  import opened Revocation
  import opened Monitor

  type Word = n: nat | n < 0x1_0000_0000_0000_0000

  type Signature = seq<Byte>

  datatype WireToken = WireToken(
    tokenId: Word,
    objectId: Word,
    rights: RightsMask,
    generation: Word,
    origin: Word,
    expiryMillisRemaining: Option<Word>,
    signature: Option<Signature>)

  /** `canonical_bytes`: every field but the signature. */
  function CanonicalBytes(w: WireToken): seq<Byte> {
    LeBytes(w.tokenId, 8) + LeBytes(w.objectId, 8) + LeBytes(w.rights, 4) + LeBytes(w.generation, 8)
    + LeBytes(w.origin, 8)
    + match w.expiryMillisRemaining
      case Some(ms) => [1] + LeBytes(ms, 8)
      case None => [0]
  }

  /** What a reader of the signed bytes recovers. */
  function ReadClaim(bs: seq<Byte>): WireToken
    requires |bs| == 37 || |bs| == 45
  {
    WireToken(
      ReadLe(bs[0..8]) % U64, ReadLe(bs[8..16]) % U64, ReadLe(bs[16..20]) % U32, ReadLe(bs[20..28]) % U64,
      ReadLe(bs[28..36]) % U64,
      if bs[36] == 1 && |bs| == 45 then Some(ReadLe(bs[37..45]) % U64) else None,
      None)
  }

  lemma WordRoundTrip(n: nat)
    ensures n < U64 ==> ReadLe(LeBytes(n, 8)) == n
    ensures n < U32 ==> ReadLe(LeBytes(n, 4)) == n
  {
    assert Pow256(2) == 65_536;
    assert Pow256(4) == U32;
    assert Pow256(6) == 0x1_0000_0000_0000;
    assert Pow256(8) == U64;
    if n < U64 { LeRoundTrip(n, 8); }
    if n < U32 { LeRoundTrip(n, 4); }
  }

  /** The signed bytes determine every claimed field. */
  lemma SignedBytesDetermineClaim(w: WireToken)
    ensures |CanonicalBytes(w)| == if w.expiryMillisRemaining.Some? then 45 else 37
    ensures ReadClaim(CanonicalBytes(w)) == w.(signature := None)
  {
    hide ReadLe, LeBytes;
    var bs := CanonicalBytes(w);
    WordRoundTrip(w.tokenId);
    WordRoundTrip(w.objectId);
    WordRoundTrip(w.rights);
    WordRoundTrip(w.generation);
    WordRoundTrip(w.origin);
    assert bs[0..8] == LeBytes(w.tokenId, 8);
    assert bs[8..16] == LeBytes(w.objectId, 8);
    assert bs[16..20] == LeBytes(w.rights, 4);
    assert bs[20..28] == LeBytes(w.generation, 8);
    assert bs[28..36] == LeBytes(w.origin, 8);
    if w.expiryMillisRemaining.Some? {
      WordRoundTrip(w.expiryMillisRemaining.value);
      assert bs[37..45] == LeBytes(w.expiryMillisRemaining.value, 8);
    }
  }

  lemma CanonicalBytesInjective(a: WireToken, b: WireToken)
    ensures CanonicalBytes(a) == CanonicalBytes(b) <==> a.(signature := None) == b.(signature := None)
  {
    SignedBytesDetermineClaim(a);
    SignedBytesDetermineClaim(b);
  }

  // ----- Leaving and arriving -----

  const NanosPerMilli: nat := 1_000_000

  predicate FitsWords(t: Token) {
    t.tokenId < U64 && t.objectId < U64 && t.generation < U64 && t.origin < U64
  }

  /** The remaining life in whole milliseconds: saturating at zero, and cut to 64 bits. */
  function MillisRemaining(expiry: Instant, now: Instant): Word {
    (if expiry >= now then (expiry - now) / NanosPerMilli else 0) % U64
  }

  /** `From<&CapabilityToken>` at instant `sent`. */
  function ToWire(t: Token, sent: Instant): WireToken
    requires FitsWords(t)
  {
    WireToken(t.tokenId, t.objectId, t.rights, t.generation, t.origin,
      if t.expiry.Some? then Some(MillisRemaining(t.expiry.value, sent)) else None, None)
  }

  function FromWire(w: WireToken, arrived: Instant): Token {
    Token(w.tokenId, w.objectId, w.rights, w.generation, w.origin,
      if w.expiryMillisRemaining.Some? then Some(arrived + w.expiryMillisRemaining.value * NanosPerMilli) else None)
  }

  /** `reconstruct_and_check`: the deadline is rebuilt at `arrived` and checked at `checked`. */
  function ReconstructAndCheck(g: Graph, w: WireToken, arrived: Instant, checked: Instant): Result<Token, Fault> {
    var t := FromWire(w, arrived);
    var live := CheckLive(g, t, checked);
    if live.Ok? then Ok(t) else Err(live.error)
  }

  function AuthenticateSigned(g: Graph, w: WireToken, verify: (seq<Byte>, Signature) -> bool,
                              arrived: Instant, checked: Instant): Result<Token, Fault>
  {
    if w.signature.None? || !verify(CanonicalBytes(w), w.signature.value) then Err(SignatureInvalid)
    else ReconstructAndCheck(g, w, arrived, checked)
  }

  /**
   * If the key accepts only bytes that the holder signed, then an accepted wire token claims exactly
   * what one of the signed tokens claimed, and that claim matches the monitor's record and generation.
   */
  lemma SignedClaimIsGenuine(g: Graph, w: WireToken, verify: (seq<Byte>, Signature) -> bool,
                             signed: set<WireToken>, arrived: Instant, checked: Instant)
    requires forall m, s | verify(m, s) :: exists v | v in signed :: CanonicalBytes(v) == m
    ensures
      var r := AuthenticateSigned(g, w, verify, arrived, checked);
      r.Ok? ==>
        && IsLive(g, r.value, checked)
        && exists v | v in signed :: v.(signature := None) == w.(signature := None)
  {
    if AuthenticateSigned(g, w, verify, arrived, checked).Ok? {
      var v :| v in signed && CanonicalBytes(v) == CanonicalBytes(w);
      CanonicalBytesInjective(v, w);
    }
  }

  /** A signed wire token is accepted exactly if it is signed, the signature verifies, and the rebuilt token is live. */
  lemma SignedAcceptedIff(g: Graph, w: WireToken, verify: (seq<Byte>, Signature) -> bool,
                          arrived: Instant, checked: Instant)
    ensures
      var r := AuthenticateSigned(g, w, verify, arrived, checked);
      var genuine := w.signature.Some? && verify(CanonicalBytes(w), w.signature.value);
      && (r == Err(SignatureInvalid) <==> !genuine)
      && (r.Ok? <==> genuine && IsLive(g, FromWire(w, arrived), checked))
      && (r.Ok? ==> r.value == FromWire(w, arrived))
  {
    hide CanonicalBytes;
  }

  /** The part of the remaining life that whole milliseconds do not carry. */
  function LostLife(expiry: Instant, sent: Instant): nat {
    var left := if expiry >= sent then expiry - sent else 0;
    assert MillisRemaining(expiry, sent) <= left / NanosPerMilli;
    left - MillisRemaining(expiry, sent) * NanosPerMilli
  }

  /**
   * A hop keeps every field but the deadline.  The deadline moves later, not earlier, exactly when the
   * token had already expired on leaving or the transit takes longer than the life lost to rounding.
   */
  lemma TransitMovesDeadline(t: Token, sent: Instant, arrived: Instant)
    requires FitsWords(t) && t.expiry.Some? && sent <= arrived
    ensures
      var t' := FromWire(ToWire(t, sent), arrived);
      && t' == t.(expiry := t'.expiry) && t'.expiry.Some?
      && (t'.expiry.value > t.expiry.value
          <==> t.expiry.value < sent || arrived - sent > LostLife(t.expiry.value, sent))
  {}

  /** A hop loses less than a millisecond of the life that remains, up to 2^64 milliseconds of it. */
  lemma HopKeepsLife(t: Token, sent: Instant, arrived: Instant)
    requires FitsWords(t) && t.expiry.Some? && sent <= t.expiry.value
    requires (t.expiry.value - sent) / NanosPerMilli < U64
    ensures
      var w := ToWire(t, sent);
      var t' := FromWire(w, arrived);
      && w.expiryMillisRemaining.Some? && w.expiryMillisRemaining.value == (t.expiry.value - sent) / 1_000_000
      && t'.expiry.Some? && arrived <= t'.expiry.value
      && t'.expiry.value - arrived <= t.expiry.value - sent < t'.expiry.value - arrived + 1_000_000
  {}

  /**
   * A token that has expired is still accepted exactly when its record and generation match and the
   * receiver checks within the rebuilt life: the original deadline plays no part.
   */
  lemma ExpiredTokenAccepted(g: Graph, t: Token, sent: Instant, arrived: Instant, checked: Instant)
    requires FitsWords(t) && t.expiry.Some?
    ensures
      ReconstructAndCheck(g, ToWire(t, sent), arrived, checked).Ok?
      <==>
      && MatchesRecord(g, t.tokenId, t.objectId, t.rights) && g[t.tokenId].liveGeneration == t.generation
      && checked <= arrived + MillisRemaining(t.expiry.value, sent) * NanosPerMilli
  {}

  /** An instance: sent a second after its deadline, accepted on arrival, and delegated from past the deadline. */
  lemma ExpiredTokenExample()
    ensures
      var s := Step(Initial, MintRoot(1, 0, Some(0), 0));
      var t := Issue(Initial, MintRoot(1, 0, Some(0), 0)).value;
      var late := 1_000_000_000;
      var accepted := t.(expiry := Some(late));
      && IsExpired(t, late)
      && ReconstructAndCheck(s.nodes, ToWire(t, late), late, late) == Ok(accepted)
      && Issue(s, Derive(t, 0, None, 0, late, late)) == None
      && var child := Issue(s, Derive(accepted, 0, None, 0, late, late));
         child.Some? && !IsExpired(child.value, late) && !NoLater(child.value.expiry, t.expiry)
  {}
}
