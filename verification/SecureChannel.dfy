/** The lockstep AEAD channel: implicit counter nonces in two disjoint spaces. */
module SecureChannel {
  import opened Machine
  import opened Endian

  const AES_256_GCM_TAG_LEN: nat := 16

  datatype Role = Initiator | Responder {
    function Byte(): u8 {
      if Initiator? then 0 else 1
    }

    function Peer(): Role {
      if Initiator? then Responder else Initiator
    }
  }

  /** Four bytes for the sender's role, eight for its counter. */
  function MakeNonce(role: Role, counter: u64): (nonce: Bytes)
    ensures |nonce| == 12
  {
    [role.Byte(), 0, 0, 0] + BE(counter, 8)
  }

  /** The bytes of a nonce: 0 for the initiator or 1 for the responder, three zeros, and the counter with
      its most significant byte first. */
  lemma NonceLayout(role: Role, counter: u64)
    ensures var nonce := MakeNonce(role, counter);
            && nonce[0] == (if role.Initiator? then 0 else 1)
            && nonce[1] == 0 && nonce[2] == 0 && nonce[3] == 0
            && FromBE(nonce[4..]) == counter
  {
    hide BE, FromBE, Pow256;
    Widths();
    BERoundTrip(counter, 8);
    assert MakeNonce(role, counter)[4..] == BE(counter, 8);
  }

  /** A nonce names one role and one counter. */
  lemma NonceInjective(r: Role, a: u64, s: Role, b: u64)
    ensures MakeNonce(r, a) == MakeNonce(s, b) ==> r == s && a == b
  {
    hide BE, Pow256;
    var x, y := MakeNonce(r, a), MakeNonce(s, b);
    if x == y {
      assert x[0] == r.Byte() && y[0] == s.Byte();
      assert x[4..] == BE(a, 8) && y[4..] == BE(b, 8);
      Widths();
      BEInjective(a, b, 8);
    }
  }

  /** The cipher under the session key, which both ends share. */
  datatype Cipher = Cipher(seal: (Bytes, Bytes) -> Option<Bytes>, open: (Bytes, Bytes) -> Option<Bytes>) {

    /** What the library promises: a frame carries a 16-byte tag, and sealing and opening under one
        nonce undo each other. */
    ghost predicate Valid() {
      && (forall n, p :: seal(n, p).Some? ==>
            |seal(n, p).value| == |p| + AES_256_GCM_TAG_LEN && open(n, seal(n, p).value) == Some(p))
      && (forall n, f :: open(n, f).Some? ==> seal(n, open(n, f).value) == Some(f))
    }
  }

  datatype Result = Ok(bytes: Bytes) | BufferTooSmall | DecryptionFailed | NonceExhausted

  function Encrypt(c: Cipher, role: Role, tx: u64, plaintext: Bytes, room: nat): Result {
    if room < |plaintext| + AES_256_GCM_TAG_LEN then BufferTooSmall
    else
      var ct := c.seal(MakeNonce(role, tx), plaintext);
      if ct.None? || |ct.value| != |plaintext| + AES_256_GCM_TAG_LEN then DecryptionFailed
      else if tx == U64_MAX then NonceExhausted
      else Ok(ct.value)
  }

  function Decrypt(c: Cipher, role: Role, rx: u64, frame: Bytes, room: nat): Result {
    if |frame| < AES_256_GCM_TAG_LEN then DecryptionFailed
    else if room < |frame| - AES_256_GCM_TAG_LEN then BufferTooSmall
    else
      var pt := c.open(MakeNonce(role.Peer(), rx), frame);
      if pt.None? then DecryptionFailed
      else if rx == U64_MAX then NonceExhausted
      else Ok(pt.value)
  }

  /** When encrypting gives a frame and which error it gives otherwise, in the order the code checks. */
  lemma EncryptMeans(c: Cipher, role: Role, tx: u64, plaintext: Bytes, room: nat)
    ensures var r, frame := Encrypt(c, role, tx, plaintext, room), c.seal(MakeNonce(role, tx), plaintext);
            var short, sealed := room < |plaintext| + 16, frame.Some? && |frame.value| == |plaintext| + 16;
            && (r == BufferTooSmall <==> short)
            && (r == DecryptionFailed <==> !short && !sealed)
            && (r == NonceExhausted <==> !short && sealed && tx == U64_MAX)
            && (r.Ok? <==> !short && sealed && tx < U64_MAX)
            && (r.Ok? ==> frame == Some(r.bytes))
  {
    hide MakeNonce;
  }

  /** The same for decrypting, which expects the nonce of the other role. */
  lemma DecryptMeans(c: Cipher, role: Role, rx: u64, frame: Bytes, room: nat)
    ensures var other := if role.Initiator? then Responder else Initiator;
            var r, plaintext := Decrypt(c, role, rx, frame, room), c.open(MakeNonce(other, rx), frame);
            var short := |frame| >= 16 && room < |frame| - 16;
            && (r == BufferTooSmall <==> short)
            && (r == DecryptionFailed <==> !short && (|frame| < 16 || plaintext.None?))
            && (r == NonceExhausted <==> !short && |frame| >= 16 && plaintext.Some? && rx == U64_MAX)
            && (r.Ok? <==> !short && |frame| >= 16 && plaintext.Some? && rx < U64_MAX)
            && (r.Ok? ==> plaintext == Some(r.bytes))
  {
    hide MakeNonce;
  }

  function Bumped(counter: u64, r: Result): u64 {
    if r.Ok? && counter < U64_MAX then counter + 1 else counter
  }

  // ---- two ends and a network that may deliver anything -----------------------------------------------

  datatype Call = Call(nonce: Bytes, plaintext: Bytes)

  /** One end: its counters, and what happened there so far. `calls` are the plaintexts handed to the
      cipher for which it produced a frame. */
  datatype Side = Side(tx: u64, rx: u64, sent: seq<Bytes>, got: seq<Bytes>, calls: seq<Call>)

  datatype Session = Session(initiator: Side, responder: Side) {
    function At(role: Role): Side {
      if role.Initiator? then initiator else responder
    }

    function With(role: Role, s: Side): Session {
      if role.Initiator? then this.(initiator := s) else this.(responder := s)
    }
  }

  const OPENING: Session := Session(Side(0, 0, [], [], []), Side(0, 0, [], [], []))

  datatype Event =
    | Send(at: Role, plaintext: Bytes, room: nat)
    | Arrive(at: Role, frame: Bytes, room: nat)

  function Sending(c: Cipher, role: Role, s: Side, plaintext: Bytes, room: nat): Side {
    var r := Encrypt(c, role, s.tx, plaintext, room);
    s.(tx := Bumped(s.tx, r),
       sent := if r.Ok? then s.sent + [plaintext] else s.sent,
       calls := if r.Ok? || r.NonceExhausted? then s.calls + [Call(MakeNonce(role, s.tx), plaintext)] else s.calls)
  }

  function Receiving(c: Cipher, role: Role, s: Side, frame: Bytes, room: nat): Side {
    var r := Decrypt(c, role, s.rx, frame, room);
    s.(rx := Bumped(s.rx, r), got := if r.Ok? then s.got + [r.bytes] else s.got)
  }

  function Step(c: Cipher, w: Session, e: Event): Session {
    match e
    case Send(at, plaintext, room) => w.With(at, Sending(c, at, w.At(at), plaintext, room))
    case Arrive(at, frame, room) => w.With(at, Receiving(c, at, w.At(at), frame, room))
  }

  function After(c: Cipher, es: seq<Event>, n: nat): Session
    requires n <= |es|
  {
    if n == 0 then OPENING else Step(c, After(c, es, n - 1), es[n - 1])
  }

  /** The frame opens under the expected nonce only to a plaintext that one of the two ends sealed
      under that nonce: the ideal cipher. */
  ghost predicate Unforged(c: Cipher, w: Session, e: Event) {
    e.Arrive? ==>
      var nonce := MakeNonce(e.at.Peer(), w.At(e.at).rx);
      var pt := c.open(nonce, e.frame);
      pt.Some? ==> Call(nonce, pt.value) in w.initiator.calls || Call(nonce, pt.value) in w.responder.calls
  }

  ghost predicate NoForgery(c: Cipher, es: seq<Event>, n: nat)
    requires n <= |es|
  {
    forall k :: 0 <= k < n ==> Unforged(c, After(c, es, k), es[k])
  }

  // ---- what every step keeps ----------------------------------------------------------------------------

  /** Counters count what was sent and accepted; the cipher was called once per counter, for the
      plaintext sent under it, and again only at the very last counter, where no frame is
      returned. */
  ghost predicate SideInv(role: Role, s: Side) {
    && |s.sent| == s.tx <= |s.calls| && |s.got| == s.rx
    && (forall k :: 0 <= k < |s.calls| ==> s.calls[k].nonce == MakeNonce(role, Min(k, U64_MAX)))
    && (forall k :: 0 <= k < s.tx ==> s.calls[k].plaintext == s.sent[k])
    && (s.tx < U64_MAX ==> |s.calls| == s.tx)
  }

  ghost predicate Inv(w: Session) {
    && SideInv(Initiator, w.initiator) && SideInv(Responder, w.responder)
    && w.initiator.got <= w.responder.sent && w.responder.got <= w.initiator.sent
  }

  lemma SendingKeepsSide(c: Cipher, role: Role, s: Side, plaintext: Bytes, room: nat)
    requires SideInv(role, s)
    ensures SideInv(role, Sending(c, role, s, plaintext, room))
    ensures s.sent <= Sending(c, role, s, plaintext, room).sent
  {
    hide MakeNonce;
  }

  lemma ReceivingKeepsSide(c: Cipher, role: Role, s: Side, frame: Bytes, room: nat)
    requires SideInv(role, s)
    ensures SideInv(role, Receiving(c, role, s, frame, room))
  {
    hide MakeNonce;
  }

  /** What an end accepts is the plaintext its peer sent under the expected counter: the role byte
      rules out its own frames, and the counter all earlier and later ones. */
  lemma AcceptedWasSent(c: Cipher, w: Session, e: Event)
    requires Inv(w) && e.Arrive? && Unforged(c, w, e)
    requires Decrypt(c, e.at, w.At(e.at).rx, e.frame, e.room).Ok?
    ensures var rx := w.At(e.at).rx;
            && rx < |w.At(e.at.Peer()).sent|
            && Decrypt(c, e.at, rx, e.frame, e.room).bytes == w.At(e.at.Peer()).sent[rx]
  {
    hide MakeNonce;
    var rx, peer := w.At(e.at).rx, e.at.Peer();
    var call := Call(MakeNonce(peer, rx), Decrypt(c, e.at, rx, e.frame, e.room).bytes);
    forall k | 0 <= k < |w.At(e.at).calls| ensures w.At(e.at).calls[k] != call {
      NonceInjective(e.at, Min(k, U64_MAX), peer, rx);
    }
    var k :| 0 <= k < |w.At(peer).calls| && w.At(peer).calls[k] == call;
    NonceInjective(peer, Min(k, U64_MAX), peer, rx);
  }

  lemma {:induction false} SessionKeepsInv(c: Cipher, es: seq<Event>, n: nat)
    requires n <= |es| && NoForgery(c, es, n)
    ensures Inv(After(c, es, n))
  {
    if n > 0 {
      hide Inv, Step, MakeNonce, Unforged;
      SessionKeepsInv(c, es, n - 1);
      StepKeepsInv(c, After(c, es, n - 1), es[n - 1]);
    }
  }

  lemma StepKeepsInv(c: Cipher, w: Session, e: Event)
    requires Inv(w) && Unforged(c, w, e)
    ensures Inv(Step(c, w, e))
  {
    hide SideInv, Sending, Receiving, Unforged;
    match e
    case Send(at, plaintext, room) =>
      SendingKeepsSide(c, at, w.At(at), plaintext, room);
      SendingAccepts(c, at, w.At(at), plaintext, room);
    case Arrive(at, frame, room) =>
      ReceivingKeepsSide(c, at, w.At(at), frame, room);
      ReceivingAccepts(c, w, e);
  }

  lemma SendingAccepts(c: Cipher, role: Role, s: Side, plaintext: Bytes, room: nat)
    ensures Sending(c, role, s, plaintext, room).got == s.got
  {
    hide Encrypt, MakeNonce;
  }

  lemma ReceivingAccepts(c: Cipher, w: Session, e: Event)
    requires Inv(w) && e.Arrive? && Unforged(c, w, e)
    ensures var s := Receiving(c, e.at, w.At(e.at), e.frame, e.room);
            s.sent == w.At(e.at).sent && s.got <= w.At(e.at.Peer()).sent
  {
    hide Decrypt, MakeNonce, Unforged;
    if Decrypt(c, e.at, w.At(e.at).rx, e.frame, e.room).Ok? {
      AcceptedWasSent(c, w, e);
    }
  }

  /** For every run without forgeries, over any network behaviour, what each end has accepted is a
      prefix of what its peer has sent: nothing reordered, repeated, skipped or invented. */
  lemma AcceptedIsPrefixOfSent(c: Cipher, es: seq<Event>, n: nat, at: Role)
    requires n <= |es| && NoForgery(c, es, n)
    ensures After(c, es, n).At(at).got <= After(c, es, n).At(at.Peer()).sent
  {
    hide After, NoForgery, SideInv;
    SessionKeepsInv(c, es, n);
  }

  /** A frame is accepted exactly when it is the peer's frame for the expected counter. */
  lemma AcceptedIff(c: Cipher, w: Session, e: Event)
    requires c.Valid() && Inv(w) && e.Arrive? && Unforged(c, w, e) && |e.frame| <= e.room + AES_256_GCM_TAG_LEN
    ensures var rx, peer := w.At(e.at).rx, e.at.Peer();
            Decrypt(c, e.at, rx, e.frame, e.room).Ok? <==>
              rx < |w.At(peer).sent| && c.seal(MakeNonce(peer, rx), w.At(peer).sent[rx]) == Some(e.frame)
  {
    hide MakeNonce;
    if Decrypt(c, e.at, w.At(e.at).rx, e.frame, e.room).Ok? {
      AcceptedWasSent(c, w, e);
    }
  }

  // ---- nonces -------------------------------------------------------------------------------------------

  lemma {:induction false} CountersGrow(c: Cipher, es: seq<Event>, i: nat, j: nat, role: Role)
    requires i <= j <= |es|
    ensures After(c, es, i).At(role).tx <= After(c, es, j).At(role).tx
    decreases j
  {
    if i < j {
      hide Step;
      CountersGrow(c, es, i, j - 1, role);
      StepGrows(c, After(c, es, j - 1), es[j - 1], role);
    }
  }

  lemma StepGrows(c: Cipher, w: Session, e: Event, role: Role)
    ensures w.At(role).tx <= Step(c, w, e).At(role).tx
  {
    hide Encrypt, Decrypt, MakeNonce;
  }

  /** Event `k` returned a frame to its caller. */
  ghost predicate Returned(c: Cipher, es: seq<Event>, k: nat)
    requires k < |es|
  {
    && es[k].Send?
    && Encrypt(c, es[k].at, After(c, es, k).At(es[k].at).tx, es[k].plaintext, es[k].room).Ok?
  }

  ghost function NonceOf(c: Cipher, es: seq<Event>, k: nat): Bytes
    requires k < |es|
  {
    MakeNonce(es[k].at, After(c, es, k).At(es[k].at).tx)
  }

  lemma ReturnedAdvances(c: Cipher, es: seq<Event>, k: nat)
    requires k < |es| && Returned(c, es, k)
    ensures After(c, es, k + 1).At(es[k].at).tx == After(c, es, k).At(es[k].at).tx + 1
  {
  }

  /** No two frames returned in a session, in either direction, used the same nonce; this takes no
      assumption on the cipher or the network. */
  lemma NoncesNeverRepeat(c: Cipher, es: seq<Event>, i: nat, j: nat)
    requires i < j < |es| && Returned(c, es, i) && Returned(c, es, j)
    ensures NonceOf(c, es, i) != NonceOf(c, es, j)
  {
    hide MakeNonce, After, Returned;
    ReturnedAdvances(c, es, i);
    CountersGrow(c, es, i + 1, j, es[i].at);
    NonceInjective(es[i].at, After(c, es, i).At(es[i].at).tx, es[j].at, After(c, es, j).At(es[j].at).tx);
  }

  lemma {:induction false} SidesKeepInv(c: Cipher, es: seq<Event>, n: nat, role: Role)
    requires n <= |es|
    ensures SideInv(role, After(c, es, n).At(role))
  {
    if n > 0 {
      SidesKeepInv(c, es, n - 1, role);
      hide SideInv, Sending, Receiving;
      var w, e := After(c, es, n - 1), es[n - 1];
      if e.at == role {
        match e
        case Send(_, plaintext, room) => SendingKeepsSide(c, role, w.At(role), plaintext, room);
        case Arrive(_, frame, room) => ReceivingKeepsSide(c, role, w.At(role), frame, room);
      }
    }
  }

  /** The event is a call to encrypt at end `role` that is told the counter is exhausted. */
  predicate ToldExhausted(c: Cipher, w: Session, e: Event, role: Role) {
    e.Send? && e.at == role && Encrypt(c, role, w.At(role).tx, e.plaintext, e.room) == NonceExhausted
  }

  function Exhaustions(c: Cipher, es: seq<Event>, n: nat, role: Role): nat
    requires n <= |es|
  {
    if n == 0 then 0
    else Exhaustions(c, es, n - 1, role) + if ToldExhausted(c, After(c, es, n - 1), es[n - 1], role) then 1 else 0
  }

  lemma {:induction false} CallsAreSentOrExhausted(c: Cipher, es: seq<Event>, n: nat, role: Role)
    requires n <= |es|
    ensures var s := After(c, es, n).At(role);
            |s.calls| == s.tx + Exhaustions(c, es, n, role)
  {
    if n > 0 {
      hide MakeNonce, Decrypt;
      CallsAreSentOrExhausted(c, es, n - 1, role);
    }
  }

  /** All cipher calls of a session that produced a frame, at both ends. */
  function AllCalls(w: Session): seq<Call> {
    w.initiator.calls + w.responder.calls
  }

  ghost predicate DistinctNonces(calls: seq<Call>) {
    forall i, j :: 0 <= i < j < |calls| ==> calls[i].nonce != calls[j].nonce
  }

  lemma OneEndDistinctIff(role: Role, s: Side)
    requires SideInv(role, s)
    ensures DistinctNonces(s.calls) <==> |s.calls| <= s.tx + 1
  {
    hide MakeNonce;
    if |s.calls| > s.tx + 1 {
      assert s.calls[s.tx].nonce == s.calls[s.tx + 1].nonce;
    } else {
      forall i, j | 0 <= i < j < |s.calls| ensures s.calls[i].nonce != s.calls[j].nonce {
        NonceInjective(role, i, role, j);
      }
    }
  }

  lemma BothEndsDistinctIff(w: Session)
    requires SideInv(Initiator, w.initiator) && SideInv(Responder, w.responder)
    ensures DistinctNonces(AllCalls(w)) <==> DistinctNonces(w.initiator.calls) && DistinctNonces(w.responder.calls)
  {
    hide MakeNonce;
    var a, b := w.initiator.calls, w.responder.calls;
    forall i, j | 0 <= i < |a| && 0 <= j < |b| ensures a[i].nonce != b[j].nonce {
      NonceInjective(Initiator, Min(i, U64_MAX), Responder, Min(j, U64_MAX));
    }
    if DistinctNonces(AllCalls(w)) {
      forall i, j | 0 <= i < j < |a| ensures a[i].nonce != a[j].nonce {
        assert AllCalls(w)[i] == a[i] && AllCalls(w)[j] == a[j];
      }
      forall i, j | 0 <= i < j < |b| ensures b[i].nonce != b[j].nonce {
        assert AllCalls(w)[|a| + i] == b[i] && AllCalls(w)[|a| + j] == b[j];
      }
    }
  }

  /** In every run, whatever the cipher and the network do, the nonces the cipher sealed under, at both
      ends together, are pairwise distinct if and only if neither end was told more than once that its
      counter is exhausted. */
  lemma CipherNoncesDistinctIff(c: Cipher, es: seq<Event>, n: nat)
    requires n <= |es|
    ensures DistinctNonces(AllCalls(After(c, es, n)))
       <==> Exhaustions(c, es, n, Initiator) <= 1 && Exhaustions(c, es, n, Responder) <= 1
  {
    hide SideInv, DistinctNonces, AllCalls, After, Exhaustions;
    var w := After(c, es, n);
    SidesKeepInv(c, es, n, Initiator);
    SidesKeepInv(c, es, n, Responder);
    CallsAreSentOrExhausted(c, es, n, Initiator);
    CallsAreSentOrExhausted(c, es, n, Responder);
    OneEndDistinctIff(Initiator, w.initiator);
    OneEndDistinctIff(Responder, w.responder);
    BothEndsDistinctIff(w);
  }

  /** And there every further call repeats it: the cipher runs before the counter is found exhausted. */
  lemma ExhaustedStillSeals(c: Cipher, role: Role, s: Side, plaintext: Bytes)
    requires c.Valid() && SideInv(role, s) && s.tx == U64_MAX && c.seal(MakeNonce(role, U64_MAX), plaintext).Some?
    ensures var after := Sending(c, role, s, plaintext, |plaintext| + AES_256_GCM_TAG_LEN);
            && after.sent == s.sent && after.tx == s.tx
            && |after.calls| == |s.calls| + 1 && after.calls[|s.calls|].nonce == MakeNonce(role, U64_MAX)
  {
    hide MakeNonce;
  }

  /** `n` calls to encrypt nothing at the initiator, with room for the tag. */
  function Sends(n: nat): (es: seq<Event>)
    ensures |es| == n
    ensures forall k :: 0 <= k < n ==> es[k] == Send(Initiator, [], AES_256_GCM_TAG_LEN)
  {
    seq(n, _ => Send(Initiator, [], AES_256_GCM_TAG_LEN))
  }

  lemma {:induction false} SendsCountUp(c: Cipher, total: nat, n: nat)
    requires c.Valid() && (forall nonce, p :: c.seal(nonce, p).Some?) && n <= total
    ensures After(c, Sends(total), n).initiator.tx == Min(n, U64_MAX)
    ensures Exhaustions(c, Sends(total), n, Initiator) == Max(0, n - U64_MAX)
  {
    hide MakeNonce, Sends;
    if n > 0 {
      SendsCountUp(c, total, n - 1);
    }
  }

  /** A run that gets there: under a cipher that never refuses, 2^64 + 1 calls at one end seal twice
      under the last nonce. */
  lemma ExhaustionRun(c: Cipher)
    requires c.Valid() && forall nonce, p :: c.seal(nonce, p).Some?
    ensures var n: nat := U64_MAX + 2;
            !DistinctNonces(AllCalls(After(c, Sends(n), n)))
  {
    hide After, Exhaustions, DistinctNonces, AllCalls, Sends;
    SendsCountUp(c, U64_MAX + 2, U64_MAX + 2);
    CipherNoncesDistinctIff(c, Sends(U64_MAX + 2), U64_MAX + 2);
  }

  // ---- the channel as it runs -------------------------------------------------------------------------------

  class Aes256GcmChannel {
    const cipher: Cipher
    const role: Role
    var txNonce: u64
    var rxNonce: u64

    constructor (cipher: Cipher, role: Role)
      ensures this.cipher == cipher && this.role == role && txNonce == 0 && rxNonce == 0
    {
      this.cipher, this.role, txNonce, rxNonce := cipher, role, 0, 0;
    }

    /** The frame is written before the counter is checked, so an exhausted counter leaves it in `out`. */
    method EncryptFrame(plaintext: Bytes, out: array<u8>) returns (r: Result)
      modifies this, out
      ensures r == Encrypt(cipher, role, old(txNonce), plaintext, out.Length)
      ensures txNonce == Bumped(old(txNonce), r) && rxNonce == old(rxNonce)
      ensures r.Ok? || r.NonceExhausted? ==>
                var frame := cipher.seal(MakeNonce(role, old(txNonce)), plaintext).value;
                out[..] == frame + old(out[|plaintext| + AES_256_GCM_TAG_LEN..])
      ensures r.BufferTooSmall? || r.DecryptionFailed? ==> out[..] == old(out[..])
    {
      var n := |plaintext| + AES_256_GCM_TAG_LEN;
      if out.Length < n {
        return BufferTooSmall;
      }
      var ct := cipher.seal(MakeNonce(role, txNonce), plaintext);
      if ct.None? {
        return DecryptionFailed;
      }
      if |ct.value| != n {
        return DecryptionFailed;
      }
      forall i | 0 <= i < n { out[i] := ct.value[i]; }
      if txNonce == U64_MAX {
        return NonceExhausted;
      }
      txNonce := txNonce + 1;
      return Ok(ct.value);
    }

    /** Likewise the plaintext. */
    method DecryptFrame(frame: Bytes, out: array<u8>) returns (r: Result)
      requires cipher.Valid()
      modifies this, out
      ensures r == Decrypt(cipher, role, old(rxNonce), frame, out.Length)
      ensures rxNonce == Bumped(old(rxNonce), r) && txNonce == old(txNonce)
      ensures r.Ok? || r.NonceExhausted? ==>
                var plaintext := cipher.open(MakeNonce(role.Peer(), old(rxNonce)), frame).value;
                out[..] == plaintext + old(out[|frame| - AES_256_GCM_TAG_LEN..])
      ensures r.BufferTooSmall? || r.DecryptionFailed? ==> out[..] == old(out[..])
    {
      if |frame| < AES_256_GCM_TAG_LEN {
        return DecryptionFailed;
      }
      if out.Length < |frame| - AES_256_GCM_TAG_LEN {
        return BufferTooSmall;
      }
      var pt := cipher.open(MakeNonce(role.Peer(), rxNonce), frame);
      if pt.None? {
        return DecryptionFailed;
      }
      assert |pt.value| <= out.Length;
      forall i | 0 <= i < |pt.value| { out[i] := pt.value[i]; }
      if rxNonce == U64_MAX {
        return NonceExhausted;
      }
      rxNonce := rxNonce + 1;
      return Ok(pt.value);
    }
  }
}
