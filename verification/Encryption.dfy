/** Frame encryption with key epochs: nonces, the key chain, the encryptor, the decryptor that commits a
    new epoch only after authentication, and the context that rotates both directions together.

    Keys are a free chain. The cipher is a pair of functions; what is assumed of it is stated where used.
 */
module Encryption {
  import opened Words
  import opened ReplayWindow
  import opened Codec

  // ---------- Nonces ----------

  /** Four bytes of epoch, eight of counter, most significant byte first. */
  function NonceOf(epoch: nat, counter: nat): (n: Bytes)
    ensures |n| == 12
  {
    BigEndian(epoch, 4) + BigEndian(counter, 8)
  }

  function NonceEpoch(nonce: Bytes): nat
    requires |nonce| == 12
  {
    FromBigEndian(nonce[..4])
  }

  function NonceCounter(nonce: Bytes): nat
    requires |nonce| == 12
  {
    FromBigEndian(nonce[4..])
  }

  lemma NonceRoundTrip(epoch: nat, counter: nat)
    requires epoch < U32 && counter < U64
    ensures NonceEpoch(NonceOf(epoch, counter)) == epoch
    ensures NonceCounter(NonceOf(epoch, counter)) == counter
  {
    WidthValues();
    BigEndianRoundTrip(epoch, 4);
    BigEndianRoundTrip(counter, 8);
    var n := NonceOf(epoch, counter);
    assert n[..4] == BigEndian(epoch, 4) && n[4..] == BigEndian(counter, 8);
  }

  lemma NonceInjective(e1: nat, c1: nat, e2: nat, c2: nat)
    requires e1 < U32 && c1 < U64 && e2 < U32 && c2 < U64
    requires NonceOf(e1, c1) == NonceOf(e2, c2)
    ensures e1 == e2 && c1 == c2
  {
    NonceRoundTrip(e1, c1);
    NonceRoundTrip(e2, c2);
  }

  // ---------- Keys ----------

  /** `Derived(k, n)` is the key derived from `k` for epoch `n`. */
  datatype Key = Root(id: nat) | Derived(prev: Key, epoch: nat)

  /** The key of an epoch in the chain that starts at `root`. */
  function KeyAt(root: Key, epoch: nat): Key {
    if epoch == 0 then root else Derived(KeyAt(root, epoch - 1), epoch)
  }

  function ChainLength(k: Key): nat {
    match k
    case Root(_) => 0
    case Derived(prev, _) => 1 + ChainLength(prev)
  }

  lemma {:induction false} ChainLengthAt(root: Key, epoch: nat)
    ensures ChainLength(KeyAt(root, epoch)) == ChainLength(root) + epoch
  {
    if epoch > 0 { ChainLengthAt(root, epoch - 1); }
  }

  /** Epochs never share a key. */
  lemma {:induction false} KeysDiffer(root: Key, a: nat, b: nat)
    requires KeyAt(root, a) == KeyAt(root, b)
    ensures a == b
  {
    ChainLengthAt(root, a);
    ChainLengthAt(root, b);
  }

  // ---------- The cipher ----------

  datatype Sealed = Sealed(ciphertext: Bytes, tag: Bytes)

  datatype Opened = Rejected | Plain(bytes: Bytes)

  datatype Aead = Aead(seal: (Key, Bytes, Bytes) -> Sealed, open: (Key, Bytes, Sealed) -> Opened)

  /** Opening undoes sealing under the same key and nonce. */
  ghost predicate Inverts(aead: Aead) {
    forall k, n, p :: aead.open(k, n, aead.seal(k, n, p)) == Plain(p)
  }

  datatype EncryptedFrame = EncryptedFrame(epoch: nat, nonce: Bytes, sealed: Sealed)

  predicate FrameTyped(ef: EncryptedFrame) {
    ef.epoch < U32 && |ef.nonce| == 12
  }

  // ---------- Encryptor ----------

  datatype Encryptor = Encryptor(key: Key, epoch: nat, counter: nat)

  /** Room for one more frame in the 64-bit counter. */
  predicate CanEncrypt(e: Encryptor) {
    e.epoch < U32 && e.counter + 1 < U64
  }

  function EncryptOne(aead: Aead, e: Encryptor, f: Frame): (EncryptedFrame, Encryptor)
    requires Fits(f.header) && CanEncrypt(e)
  {
    var nonce := NonceOf(e.epoch, e.counter);
    (EncryptedFrame(e.epoch, nonce, aead.seal(e.key, nonce, EncodeFrame(f))), e.(counter := e.counter + 1))
  }

  function RotateEncryptor(e: Encryptor): Encryptor {
    Encryptor(Derived(e.key, e.epoch + 1), e.epoch + 1, 0)
  }

  // ---------- Decryptor ----------

  datatype Decryptor = Decryptor(key: Key, epoch: nat, window: Window)

  datatype DecryptResult = Decrypted(frame: Frame) | ReplayDetected | EncryptionError | Malformed(error: Error)

  function Parsed(plain: Bytes): DecryptResult {
    match DecodeFrame(plain)
    case Ok(f) => Decrypted(f)
    case Err(e) => Malformed(e)
  }

  function RotateDecryptor(d: Decryptor): Decryptor {
    Decryptor(Derived(d.key, d.epoch + 1), d.epoch + 1, FRESH)
  }

  function ResultOf(out: Opened): DecryptResult {
    match out
    case Rejected => EncryptionError
    case Plain(plain) => Parsed(plain)
  }

  /** What comes of a frame: a frame of the current epoch is checked against the window, one of the next epoch against
      a fresh one, any other is refused. */
  function Opening(aead: Aead, d: Decryptor, ef: EncryptedFrame): DecryptResult
    requires FrameTyped(ef)
  {
    var counter := NonceCounter(ef.nonce);
    if ef.epoch == d.epoch then
      if !Admit(d.window, counter).accepted then ReplayDetected else ResultOf(aead.open(d.key, ef.nonce, ef.sealed))
    else if ef.epoch == d.epoch + 1 then
      if !Admit(FRESH, counter).accepted then ReplayDetected
      else ResultOf(aead.open(Derived(d.key, d.epoch + 1), ef.nonce, ef.sealed))
    else EncryptionError
  }

  /** The receiver after it: the window moves before authentication, the epoch only after. */
  function AfterOpening(aead: Aead, d: Decryptor, ef: EncryptedFrame): Decryptor
    requires FrameTyped(ef)
  {
    var counter := NonceCounter(ef.nonce);
    if ef.epoch == d.epoch then d.(window := Admit(d.window, counter).next)
    else if ef.epoch == d.epoch + 1 && Admit(FRESH, counter).accepted
            && aead.open(Derived(d.key, d.epoch + 1), ef.nonce, ef.sealed).Plain? then
      RotateDecryptor(d).(window := Admit(FRESH, counter).next)
    else d
  }

  function DecryptOne(aead: Aead, d: Decryptor, ef: EncryptedFrame): (DecryptResult, Decryptor)
    requires FrameTyped(ef)
  {
    (Opening(aead, d, ef), AfterOpening(aead, d, ef))
  }

  // ---------- Both directions ----------

  datatype RotationPolicy = Manual | Counter(limit: nat)

  datatype Context = Context(encryptor: Encryptor, decryptor: Decryptor, policy: RotationPolicy)

  /** Rotates the two directions together. */
  function RotateBoth(c: Context): Context {
    c.(encryptor := RotateEncryptor(c.encryptor), decryptor := RotateDecryptor(c.decryptor))
  }

  predicate Due(policy: RotationPolicy, counter: nat) {
    policy.Counter? && counter >= policy.limit
  }

  /** The sending half after one more frame. */
  function Spent(policy: RotationPolicy, e: Encryptor): Encryptor {
    var e' := e.(counter := e.counter + 1);
    if Due(policy, e'.counter) then RotateEncryptor(e') else e'
  }

  /** One more frame can be sealed: the counter has room, and so has the epoch if a rotation follows. */
  predicate CanSeal(policy: RotationPolicy, e: Encryptor) {
    CanEncrypt(e) && (Due(policy, e.counter + 1) ==> e.epoch + 1 < U32)
  }

  /** `n` more frames can be sealed. */
  predicate Room(policy: RotationPolicy, e: Encryptor, n: nat)
    decreases n
  {
    n == 0 || (CanSeal(policy, e) && Room(policy, Spent(policy, e), n - 1))
  }

  lemma {:induction false} RoomForFewer(policy: RotationPolicy, e: Encryptor, n: nat, k: nat)
    requires Room(policy, e, n) && k <= n
    ensures Room(policy, e, k)
    decreases n
  {
    if k > 0 { RoomForFewer(policy, Spent(policy, e), n - 1, k - 1); }
  }

  /** The two halves after `k` more frames: the sender, and the epoch of the receiver, which rotates along. */
  function Reach(policy: RotationPolicy, e: Encryptor, d: nat, k: nat): (Encryptor, nat)
    decreases k
  {
    if k == 0 then (e, d) else Reach(policy, Spent(policy, e), DecryptorEpoch(policy, e, d), k - 1)
  }

  function DecryptorEpoch(policy: RotationPolicy, e: Encryptor, d: nat): nat {
    if Due(policy, e.counter + 1) then d + 1 else d
  }

  predicate CanSealBoth(policy: RotationPolicy, e: Encryptor, d: nat) {
    CanSeal(policy, e) && (Due(policy, e.counter + 1) ==> d + 1 < U32)
  }

  /** The frame after the next `k` can be sealed. */
  predicate SealsAt(policy: RotationPolicy, e: Encryptor, d: nat, k: nat) {
    var (e', d') := Reach(policy, e, d, k);
    CanSealBoth(policy, e', d')
  }

  /** Room for `n` frames when the receiving half of the context, in epoch `d`, rotates along. */
  ghost predicate RoomBoth(policy: RotationPolicy, e: Encryptor, d: nat, n: nat) {
    forall k: nat :: k < n ==> SealsAt(policy, e, d, k)
  }

  lemma RoomBothStep(policy: RotationPolicy, e: Encryptor, d: nat, n: nat)
    requires RoomBoth(policy, e, d, n) && n > 0
    ensures CanSealBoth(policy, e, d) && RoomBoth(policy, Spent(policy, e), DecryptorEpoch(policy, e, d), n - 1)
  {
    assert SealsAt(policy, e, d, 0);
    forall k: nat | k < n - 1 ensures SealsAt(policy, Spent(policy, e), DecryptorEpoch(policy, e, d), k) {
      assert SealsAt(policy, e, d, k + 1);
    }
  }

  /** A receiver that is not ahead needs no room of its own. */
  lemma {:induction false} RoomIsForBoth(policy: RotationPolicy, e: Encryptor, d: nat, n: nat)
    requires Room(policy, e, n) && d <= e.epoch
    ensures RoomBoth(policy, e, d, n)
  {
    forall k: nat | k < n ensures SealsAt(policy, e, d, k) { RoomReaches(policy, e, d, n, k); }
  }

  lemma {:induction false} RoomReaches(policy: RotationPolicy, e: Encryptor, d: nat, n: nat, k: nat)
    requires Room(policy, e, n) && d <= e.epoch && k < n
    ensures SealsAt(policy, e, d, k)
    decreases k
  {
    if k > 0 { RoomReaches(policy, Spent(policy, e), DecryptorEpoch(policy, e, d), n - 1, k - 1); }
  }

  predicate TypedPolicy(policy: RotationPolicy) {
    policy.Counter? ==> policy.limit < U64
  }

  /** Frames sealed under one key. */
  function PerEpoch(policy: RotationPolicy): nat
    requires policy.Counter?
  {
    if policy.limit == 0 then 1 else policy.limit
  }

  /** How many frames there is room for: with manual rotation what the counter allows, otherwise that many per
      epoch for every epoch left. */
  predicate Affords(policy: RotationPolicy, epoch: nat, counter: nat, n: nat) {
    match policy
    case Manual => epoch < U32 && counter + n < U64
    case Counter(_) => epoch + (counter + n) / PerEpoch(policy) < U32
  }

  lemma {:induction false} RoomExactly(policy: RotationPolicy, e: Encryptor, n: nat)
    requires e.epoch < U32 && e.counter < U64 && (policy.Counter? ==> e.counter < PerEpoch(policy) < U64)
    ensures Room(policy, e, n) <==> Affords(policy, e.epoch, e.counter, n)
    decreases n
  {
    if n > 0 {
      if policy.Counter? {
        RoomUnderLimit(policy, e, n);
      } else if e.counter + 1 < U64 {
        RoomExactly(policy, Spent(policy, e), n - 1);
      }
    } else if policy.Counter? {
      ModUnique(e.counter, PerEpoch(policy), 0, e.counter);
    }
  }

  lemma {:induction false} RoomUnderLimit(policy: RotationPolicy, e: Encryptor, n: nat)
    requires policy.Counter? && n > 0 && e.epoch < U32 && e.counter < PerEpoch(policy) < U64
    ensures Room(policy, e, n) <==> e.epoch + (e.counter + n) / PerEpoch(policy) < U32
    decreases n, 0
  {
    var m := PerEpoch(policy);
    if e.counter + 1 < m {
      RoomExactly(policy, Spent(policy, e), n - 1);
      assert e.counter + 1 + (n - 1) == e.counter + n;
    } else {
      OneEpochMore(n - 1, m);
      assert e.counter + n == (n - 1) + m;
      assert (n - 1) / m >= 0;
      if e.epoch + 1 < U32 { RoomExactly(policy, Spent(policy, e), n - 1); }
    }
  }

  lemma OneEpochMore(x: nat, m: nat)
    requires m >= 1
    ensures (x + m) / m == x / m + 1
  {
    assert (x / m + 1) * m == (x / m) * m + m;
    ModUnique(x + m, m, x / m + 1, x % m);
  }

  /** The context after one more frame: both halves rotate if that reaches the limit. */
  function AfterSealing(c: Context): Context {
    var c' := c.(encryptor := c.encryptor.(counter := c.encryptor.counter + 1));
    if Due(c.policy, c'.encryptor.counter) then RotateBoth(c') else c'
  }

  function ContextEncrypt(aead: Aead, c: Context, f: Frame): (EncryptedFrame, Context)
    requires Fits(f.header) && CanEncrypt(c.encryptor)
  {
    (EncryptOne(aead, c.encryptor, f).0, AfterSealing(c))
  }

  function ContextDecrypt(aead: Aead, c: Context, ef: EncryptedFrame): (DecryptResult, Context)
    requires FrameTyped(ef)
  {
    (Opening(aead, c.decryptor, ef), c.(decryptor := AfterOpening(aead, c.decryptor, ef)))
  }
}

/** The same as objects. */
module EncryptionObjects {
  import opened Words
  import opened ReplayWindow
  import opened Codec
  import opened Encryption

  class ReplayProtection {
    var maxCounter: nat
    var receivedMask: nat

    ghost function Value(): Window
      reads this
    {
      Window(maxCounter, receivedMask)
    }

    constructor ()
      ensures Value() == FRESH
    {
      maxCounter, receivedMask := 0, 0;
    }

    method ProtectReplay(nonce: Bytes) returns (ok: bool)
      requires |nonce| == 12
      modifies this
      ensures ok == Admit(old(Value()), NonceCounter(nonce)).accepted
      ensures Value() == Admit(old(Value()), NonceCounter(nonce)).next
    {
      var v := NonceCounter(nonce);
      if v <= maxCounter {
        var diff := maxCounter - v;
        if diff >= 64 { return false; }
        if Bit(receivedMask, diff) {
          ok := false;
        } else {
          receivedMask := SetBit(receivedMask, diff);
          ok := true;
        }
      } else {
        var diff := v - maxCounter;
        if diff >= 64 {
          receivedMask := 1;
        } else {
          receivedMask := SetBit(ShiftLeft(receivedMask, diff), 0);
        }
        maxCounter := v;
        ok := true;
      }
    }
  }

  class FrameEncryptor {
    var sendKey: Key
    var epoch: nat
    var counter: nat

    ghost function Value(): Encryptor
      reads this
    {
      Encryptor(sendKey, epoch, counter)
    }

    constructor (sendKey: Key, epoch: nat)
      ensures Value() == Encryptor(sendKey, epoch, 0)
    {
      this.sendKey, this.epoch := sendKey, epoch;
      counter := 0;
    }

    method EncryptFrame(aead: Aead, frame: Frame) returns (ef: EncryptedFrame)
      requires Fits(frame.header) && CanEncrypt(Value())
      modifies this
      ensures (ef, Value()) == EncryptOne(aead, old(Value()), frame)
    {
      var plaintext := EncodeFrame(frame);
      var nonce := NonceOf(epoch, counter);
      var sealed := aead.seal(sendKey, nonce, plaintext);
      counter := counter + 1;
      ef := EncryptedFrame(epoch, nonce, sealed);
    }

    method RotateKeys()
      requires epoch + 1 < U32
      modifies this
      ensures Value() == RotateEncryptor(old(Value()))
    {
      epoch := epoch + 1;
      sendKey := Derived(sendKey, epoch);
      counter := 0;
    }
  }

  class FrameDecryptor {
    var recvKey: Key
    var epoch: nat
    var replay: ReplayProtection

    ghost function Value(): Decryptor
      reads this, replay
    {
      Decryptor(recvKey, epoch, replay.Value())
    }

    constructor (recvKey: Key, epoch: nat)
      ensures Value() == Decryptor(recvKey, epoch, FRESH) && fresh(replay)
    {
      this.recvKey, this.epoch := recvKey, epoch;
      replay := new ReplayProtection();
    }

    method DecryptFrame(aead: Aead, encrypted: EncryptedFrame) returns (r: DecryptResult)
      requires FrameTyped(encrypted)
      modifies this, replay
      ensures (r, Value()) == DecryptOne(aead, old(Value()), encrypted)
      ensures replay == old(replay) || fresh(replay)
    {
      if encrypted.epoch == epoch {
        var ok := replay.ProtectReplay(encrypted.nonce);
        if !ok { return ReplayDetected; }
        var unsealed := aead.open(recvKey, encrypted.nonce, encrypted.sealed);
        if unsealed.Rejected? { return EncryptionError; }
        r := Parsed(unsealed.bytes);
      } else if encrypted.epoch == epoch + 1 {
        var candidateEpoch := epoch + 1;
        var candidateKey := Derived(recvKey, candidateEpoch);
        var candidateReplay := new ReplayProtection();
        var ok := candidateReplay.ProtectReplay(encrypted.nonce);
        if !ok { return ReplayDetected; }
        var unsealed := aead.open(candidateKey, encrypted.nonce, encrypted.sealed);
        if unsealed.Rejected? { return EncryptionError; }
        epoch, recvKey, replay := candidateEpoch, candidateKey, candidateReplay;
        r := Parsed(unsealed.bytes);
      } else {
        r := EncryptionError;
      }
    }

    method RotateKeys()
      requires epoch + 1 < U32
      modifies this
      ensures Value() == RotateDecryptor(old(Value())) && fresh(replay)
    {
      epoch := epoch + 1;
      recvKey := Derived(recvKey, epoch);
      replay := new ReplayProtection();
    }
  }

  class EncryptionContext {
    const encryptor: FrameEncryptor
    const decryptor: FrameDecryptor
    const policy: RotationPolicy

    ghost function Value(): Context
      reads encryptor, decryptor, decryptor.replay
    {
      Context(encryptor.Value(), decryptor.Value(), policy)
    }

    constructor (sendKey: Key, recvKey: Key, epoch: nat, policy: RotationPolicy)
      ensures Value() == Context(Encryptor(sendKey, epoch, 0), Decryptor(recvKey, epoch, FRESH), policy)
      ensures fresh(encryptor) && fresh(decryptor) && fresh(decryptor.replay)
    {
      encryptor := new FrameEncryptor(sendKey, epoch);
      decryptor := new FrameDecryptor(recvKey, epoch);
      this.policy := policy;
    }

    method EncryptFrame(aead: Aead, frame: Frame) returns (ef: EncryptedFrame)
      requires Fits(frame.header) && CanSealBoth(policy, encryptor.Value(), decryptor.epoch)
      modifies encryptor, decryptor
      ensures (ef, Value()) == ContextEncrypt(aead, old(Value()), frame)
    {
      ef := encryptor.EncryptFrame(aead, frame);
      if policy.Counter? && encryptor.counter >= policy.limit {
        RotateKeys();
      }
    }

    method RotateKeys()
      requires encryptor.epoch + 1 < U32 && decryptor.epoch + 1 < U32
      modifies encryptor, decryptor
      ensures Value() == RotateBoth(old(Value())) && fresh(decryptor.replay)
    {
      encryptor.RotateKeys();
      decryptor.RotateKeys();
    }

    method DecryptFrame(aead: Aead, ef: EncryptedFrame) returns (r: DecryptResult)
      requires FrameTyped(ef)
      modifies decryptor, decryptor.replay
      ensures (r, Value()) == ContextDecrypt(aead, old(Value()), ef)
      ensures decryptor.replay == old(decryptor.replay) || fresh(decryptor.replay)
    {
      r := decryptor.DecryptFrame(aead, ef);
    }
  }
}
