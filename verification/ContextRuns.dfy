/** Whole runs of an encryption context: frames sealed, frames opened and keys rotated in any order. What a
    context holds, and what it returns, is stated from the history of the run alone.
 */
module ContextRuns {
  import opened Words
  import opened ReplayWindow
  import opened Codec
  import opened Encryption
  import opened SecureChannel

  datatype Use = SealUse(frame: Frame) | OpenUse(ef: EncryptedFrame) | RotateUse

  /** Rotations so far, frames sealed since the last one, epochs the peer's frames took the receiving half on, and
      the counters presented in the receiving half's current epoch. */
  datatype History = History(rotations: nat, here: nat, commits: nat, current: seq<nat>)

  /** The two ends' first keys and the policy. */
  datatype Setup = Setup(aead: Aead, sendRoot: Key, recvRoot: Key, policy: RotationPolicy)

  function ReceiveEpoch(h: History): nat {
    h.rotations + h.commits
  }

  function Rotated(h: History): History {
    History(h.rotations + 1, 0, h.commits, [])
  }

  /** The policy's limit is reached by the frame about to be sealed. */
  predicate LastOfEpoch(policy: RotationPolicy, h: History) {
    policy.Counter? && h.here + 1 == PerEpoch(policy)
  }

  predicate TakesOn(u: Setup, h: History, ef: EncryptedFrame) {
    ef.epoch == ReceiveEpoch(h) + 1 && u.aead.open(KeyAt(u.recvRoot, ef.epoch), ef.nonce, ef.sealed).Plain?
  }

  function Recorded(u: Setup, h: History, use: Use): History
    requires use.OpenUse? ==> FrameTyped(use.ef)
  {
    match use
    case SealUse(_) => if LastOfEpoch(u.policy, h) then Rotated(h) else h.(here := h.here + 1)
    case RotateUse => Rotated(h)
    case OpenUse(ef) =>
      if ef.epoch == ReceiveEpoch(h) then h.(current := h.current + [NonceCounter(ef.nonce)])
      else if TakesOn(u, h, ef) then h.(commits := h.commits + 1, current := [NonceCounter(ef.nonce)])
      else h
  }

  predicate Usable(c: Context, use: Use) {
    match use
    case SealUse(f) => Fits(f.header) && CanSealBoth(c.policy, c.encryptor, c.decryptor.epoch)
    case OpenUse(ef) => FrameTyped(ef)
    case RotateUse => c.encryptor.epoch + 1 < U32 && c.decryptor.epoch + 1 < U32
  }

  function Used(u: Setup, c: Context, use: Use): Context
    requires Usable(c, use)
  {
    match use
    case SealUse(_) => AfterSealing(c)
    case OpenUse(ef) => c.(decryptor := AfterOpening(u.aead, c.decryptor, ef))
    case RotateUse => RotateBoth(c)
  }

  /** That is what sealing and opening a frame leave. */
  lemma UseIsTheContexts(u: Setup, c: Context, use: Use)
    requires Usable(c, use)
    ensures match use
            case SealUse(f) => Used(u, c, use) == ContextEncrypt(u.aead, c, f).1
            case OpenUse(ef) => Used(u, c, use) == ContextDecrypt(u.aead, c, ef).1
            case RotateUse => Used(u, c, use) == RotateBoth(c)
  {
  }

  /** A context and its history. */
  datatype Life = Life(context: Context, history: History)

  function Born(u: Setup): Life {
    Life(Context(Encryptor(u.sendRoot, 0, 0), Decryptor(u.recvRoot, 0, FRESH), u.policy), History(0, 0, 0, []))
  }

  function Onward(u: Setup, l: Life, use: Use): Life
    requires Usable(l.context, use)
  {
    Life(Used(u, l.context, use), Recorded(u, l.history, use))
  }

  ghost predicate Run(u: Setup, lives: seq<Life>, uses: seq<Use>) {
    && |lives| == |uses| + 1 && lives[0] == Born(u)
    && forall k {:trigger uses[k]} :: 0 <= k < |uses| ==>
         Usable(lives[k].context, uses[k]) && lives[k + 1] == Onward(u, lives[k], uses[k])
  }

  /** The context that goes with a history. */
  function HeldAfter(u: Setup, h: History): Context {
    Context(Encryptor(KeyAt(u.sendRoot, h.rotations), h.rotations, h.here),
            Decryptor(KeyAt(u.recvRoot, ReceiveEpoch(h)), ReceiveEpoch(h), After(FRESH, h.current)),
            u.policy)
  }

  predicate UnderLimit(policy: RotationPolicy, h: History) {
    policy.Counter? ==> h.here < PerEpoch(policy)
  }

  lemma RotateHolds(u: Setup, h: History)
    ensures RotateBoth(HeldAfter(u, h)) == HeldAfter(u, Rotated(h))
  {
  }

  lemma SealHolds(u: Setup, h: History, f: Frame)
    requires UnderLimit(u.policy, h)
    ensures var h' := Recorded(u, h, SealUse(f));
            AfterSealing(HeldAfter(u, h)) == HeldAfter(u, h') && UnderLimit(u.policy, h')
  {
    RotateHolds(u, h);
  }

  lemma OpenHolds(u: Setup, h: History, ef: EncryptedFrame)
    requires FrameTyped(ef)
    ensures var c := HeldAfter(u, h);
            c.(decryptor := AfterOpening(u.aead, c.decryptor, ef)) == HeldAfter(u, Recorded(u, h, OpenUse(ef)))
  {
    var d := HeldAfter(u, h).decryptor;
    WindowStep(u.aead, d, h.current, ef);
    FreshAdmits(NonceCounter(ef.nonce));
    OpenMoves(u.aead, d, ef);
  }

  /** Opening a frame moves key and epoch only by a commit. */
  lemma OpenMoves(aead: Aead, d: Decryptor, ef: EncryptedFrame)
    requires FrameTyped(ef) && Admit(FRESH, NonceCounter(ef.nonce)).accepted
    ensures var d' := AfterOpening(aead, d, ef);
            if Commits(aead, d, ef) then d'.epoch == d.epoch + 1 && d'.key == Derived(d.key, d.epoch + 1)
            else d'.epoch == d.epoch && d'.key == d.key
  {
  }

  ghost predicate Held(u: Setup, l: Life) {
    l.context == HeldAfter(u, l.history) && UnderLimit(u.policy, l.history)
  }

  lemma UseHolds(u: Setup, l: Life, use: Use)
    requires Held(u, l) && Usable(l.context, use)
    ensures Held(u, Onward(u, l, use))
  {
    match use
    case SealUse(f) => SealHolds(u, l.history, f);
    case OpenUse(ef) => OpenHolds(u, l.history, ef);
    case RotateUse => RotateHolds(u, l.history);
  }

  /** Main result: over every run, both halves hold the keys of their own chains at their epochs, the sending half
      numbers its frames from each rotation on, and the receiving half's window is that of the counters
      presented since it entered its epoch. */
  lemma {:induction false} ContextIsItsHistory(u: Setup, lives: seq<Life>, uses: seq<Use>, n: nat)
    requires Run(u, lives, uses) && n <= |uses|
    ensures Held(u, lives[n])
  {
    if n == 0 {
      BornHeld(u);
    } else {
      ContextIsItsHistory(u, lives, uses, n - 1);
      UseHolds(u, lives[n - 1], uses[n - 1]);
    }
  }

  lemma BornHeld(u: Setup)
    ensures Held(u, Born(u))
  {
    assert KeyAt(u.sendRoot, 0) == u.sendRoot && KeyAt(u.recvRoot, 0) == u.recvRoot;
    assert After(FRESH, []) == FRESH;
  }

  /** How many frames were sealed. */
  function Seals(uses: seq<Use>): nat {
    if uses == [] then 0 else Seals(uses[..|uses| - 1]) + if uses[|uses| - 1].SealUse? then 1 else 0
  }

  lemma OneMore(n: nat, m: nat)
    requires m >= 1
    ensures (n + 1) / m == n / m + (if n % m + 1 == m then 1 else 0)
    ensures (n + 1) % m == if n % m + 1 == m then 0 else n % m + 1
  {
    var q, r := n / m, n % m;
    assert n == q * m + r;
    if r + 1 == m {
      assert n + 1 == (q + 1) * m + 0;
      ModUnique(n + 1, m, q + 1, 0);
    } else {
      ModUnique(n + 1, m, q, r + 1);
    }
  }

  /** With nothing but the policy to rotate keys, `sent` frames leave this many rotations and this counter. */
  predicate OnSchedule(policy: RotationPolicy, h: History, sent: nat) {
    match policy
    case Manual => h.rotations == 0 && h.here == sent
    case Counter(_) => h.rotations == sent / PerEpoch(policy) && h.here == sent % PerEpoch(policy)
  }

  /** Where no rotation is asked for, the counter policy rotates after every `limit` frames, and the manual one never. */
  lemma {:induction false} RotatesOnSchedule(u: Setup, lives: seq<Life>, uses: seq<Use>, n: nat)
    requires Run(u, lives, uses) && n <= |uses| && RotateUse !in uses[..n]
    ensures OnSchedule(u.policy, lives[n].history, Seals(uses[..n]))
  {
    if n == 0 {
      if u.policy.Counter? { ModUnique(0, PerEpoch(u.policy), 0, 0); }
    } else {
      assert uses[..n][..n - 1] == uses[..n - 1] && uses[..n][n - 1] == uses[n - 1];
      RotatesOnSchedule(u, lives, uses, n - 1);
      ScheduleStep(u, lives[n - 1].history, uses[n - 1], Seals(uses[..n - 1]));
    }
  }

  lemma ScheduleStep(u: Setup, h: History, use: Use, sent: nat)
    requires !use.RotateUse? && (use.OpenUse? ==> FrameTyped(use.ef)) && OnSchedule(u.policy, h, sent)
    ensures OnSchedule(u.policy, Recorded(u, h, use), if use.SealUse? then sent + 1 else sent)
  {
    if u.policy.Counter? { OneMore(sent, PerEpoch(u.policy)); }
  }

  // ---------- What a context returns ----------

  /** The frame that a peer with first key `root` seals as number `counter` of an epoch. */
  function SealedAt(aead: Aead, root: Key, epoch: nat, counter: nat, f: Frame): EncryptedFrame
    requires Fits(f.header)
  {
    var nonce := NonceOf(epoch, counter);
    EncryptedFrame(epoch, nonce, aead.seal(KeyAt(root, epoch), nonce, EncodeFrame(f)))
  }

  /** What a context seals is that frame of its own chain. */
  lemma {:induction false} SealsInOrder(u: Setup, lives: seq<Life>, uses: seq<Use>, n: nat, f: Frame)
    requires Run(u, lives, uses) && n <= |uses| && Usable(lives[n].context, SealUse(f))
    ensures var h := lives[n].history;
            ContextEncrypt(u.aead, lives[n].context, f).0 == SealedAt(u.aead, u.sendRoot, h.rotations, h.here, f)
  {
    ContextIsItsHistory(u, lives, uses, n);
  }

  /** Genuine, and of the receiving half's epoch with no counter presented there that equals its own or lies 64 or more
      ahead, or of the next epoch. */
  ghost predicate Returns(u: Setup, h: History, ef: EncryptedFrame, f: Frame)
    requires FrameTyped(ef)
  {
    && Holds(u.aead, KeyAt(u.recvRoot, ef.epoch), ef, f)
    && ((ef.epoch == ReceiveEpoch(h) && Unspoilt(h.current, NonceCounter(ef.nonce))) || ef.epoch == ReceiveEpoch(h) + 1)
  }

  /** Main result: over every run, whatever was opened before, exactly these frames are returned. */
  lemma {:induction false} ContextReturnsExactly(u: Setup, lives: seq<Life>, uses: seq<Use>, n: nat,
                                                 ef: EncryptedFrame, f: Frame)
    requires Run(u, lives, uses) && n <= |uses| && FrameTyped(ef)
    ensures ContextDecrypt(u.aead, lives[n].context, ef).0 == Decrypted(f) <==> Returns(u, lives[n].history, ef, f)
  {
    ContextIsItsHistory(u, lives, uses, n);
    HeldReturns(u, lives[n].context.decryptor, lives[n].history, ef, f);
  }

  lemma {:induction false} HeldReturns(u: Setup, d: Decryptor, h: History, ef: EncryptedFrame, f: Frame)
    requires FrameTyped(ef) && d.epoch == ReceiveEpoch(h) && d.key == KeyAt(u.recvRoot, d.epoch)
    requires d.window == After(FRESH, h.current)
    ensures Opening(u.aead, d, ef) == Decrypted(f) <==> Returns(u, h, ef, f)
  {
    UnspoiltIsAdmitted(h.current, NonceCounter(ef.nonce));
    FreshAdmits(NonceCounter(ef.nonce));
    ReturnsUnder(u.aead, d, ef, f, KeyAt(u.recvRoot, ef.epoch));
  }

  lemma ReturnsUnder(aead: Aead, d: Decryptor, ef: EncryptedFrame, f: Frame, key: Key)
    requires FrameTyped(ef) && Admit(FRESH, NonceCounter(ef.nonce)).accepted
    requires (ef.epoch == d.epoch ==> key == d.key) && (ef.epoch == d.epoch + 1 ==> key == Derived(d.key, d.epoch + 1))
    ensures Opening(aead, d, ef) == Decrypted(f) <==>
              && Holds(aead, key, ef, f)
              && ((ef.epoch == d.epoch && Admit(d.window, NonceCounter(ef.nonce)).accepted) || ef.epoch == d.epoch + 1)
  {
    DecryptMeans(aead, d, ef, f);
  }

  lemma {:induction false} SealedHolds(aead: Aead, root: Key, epoch: nat, counter: nat, f: Frame)
    requires Inverts(aead) && WellFormed(f) && epoch < U32 && counter < U64
    ensures var ef := SealedAt(aead, root, epoch, counter, f);
            && FrameTyped(ef) && NonceCounter(ef.nonce) == counter && Holds(aead, KeyAt(root, epoch), ef, f)
  {
    NonceRoundTrip(epoch, counter);
    DecodeUndoesEncode(f);
  }

  /** So of the frames the peer seals exactly those of the receiving half's epoch that nothing presented there
      spoils, and those of the next epoch, are returned. */
  lemma {:induction false} PeerFrameReturnedExactly(u: Setup, lives: seq<Life>, uses: seq<Use>, n: nat,
                                                    epoch: nat, counter: nat, f: Frame)
    requires Run(u, lives, uses) && n <= |uses| && Inverts(u.aead)
    requires WellFormed(f) && epoch < U32 && counter < U64
    ensures var h, ef := lives[n].history, SealedAt(u.aead, u.recvRoot, epoch, counter, f);
            && FrameTyped(ef)
            && (ContextDecrypt(u.aead, lives[n].context, ef).0 == Decrypted(f) <==>
                  (epoch == ReceiveEpoch(h) && Unspoilt(h.current, counter)) || epoch == ReceiveEpoch(h) + 1)
  {
    SealedHolds(u.aead, u.recvRoot, epoch, counter, f);
    ContextReturnsExactly(u, lives, uses, n, SealedAt(u.aead, u.recvRoot, epoch, counter, f), f);
  }

  /** Right after a rotation, due or asked for, every frame the peer seals in the new epoch or the one after it is
      returned, whatever its counter, and every other is refused: also those it sealed before it had rotated. */
  lemma {:induction false} AfterRotationExactly(u: Setup, lives: seq<Life>, uses: seq<Use>, n: nat,
                                                epoch: nat, counter: nat, f: Frame)
    requires Run(u, lives, uses) && n < |uses| && Inverts(u.aead)
    requires lives[n + 1].context.encryptor.epoch != lives[n].context.encryptor.epoch
    requires WellFormed(f) && epoch < U32 && counter < U64
    ensures var was, ef := lives[n].context.decryptor.epoch, SealedAt(u.aead, u.recvRoot, epoch, counter, f);
            && FrameTyped(ef)
            && (ContextDecrypt(u.aead, lives[n + 1].context, ef).0 == Decrypted(f) <==> was + 1 <= epoch <= was + 2)
  {
    ContextIsItsHistory(u, lives, uses, n);
    RotationMeans(u, lives[n], uses[n]);
    PeerFrameReturnedExactly(u, lives, uses, n + 1, epoch, counter, f);
  }

  lemma RotationMeans(u: Setup, l: Life, use: Use)
    requires Held(u, l) && Usable(l.context, use)
    requires Onward(u, l, use).context.encryptor.epoch != l.context.encryptor.epoch
    ensures Onward(u, l, use).history == Rotated(l.history) && l.context.decryptor.epoch == ReceiveEpoch(l.history)
  {
    UseHolds(u, l, use);
  }
}
