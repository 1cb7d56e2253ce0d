/** One direction of the encrypted channel against an arbitrary network.

    The sender seals frames and rotates its key whenever it likes (the counter policy is one way of
    doing so). The receiver is fed any frames at all: genuine, repeated, reordered, altered or made up,
    and may also rotate on its own. The cipher is ideal in one respect only: bytes that open under a
    key of the chain were sealed by the sender under that key and nonce. `log` records the seals,
    `returned` the frames handed to the caller, `seen` the counters presented in the current epoch.
 */
module SecureChannel {
  import opened Words
  import opened ReplayWindow
  import opened Codec
  import opened Encryption

  /** A seal made by the sender. */
  datatype Record = Record(epoch: nat, counter: nat, frame: Frame)

  datatype Channel = Channel(enc: Encryptor, dec: Decryptor, log: seq<Record>, seen: Seen, returned: seq<Record>)

  function NewChannel(root: Key): Channel {
    Channel(Encryptor(root, 0, 0), Decryptor(root, 0, FRESH), [], NOTHING, [])
  }

  datatype Step = SealStep(frame: Frame) | RotateSenderStep | InputStep(ef: EncryptedFrame) | RotateReceiverStep

  /** The sender sealed `plain` under this key and nonce. */
  ghost predicate Logged(root: Key, log: seq<Record>, key: Key, nonce: Bytes, plain: Bytes) {
    exists k :: 0 <= k < |log| && Matches(root, log[k], key, nonce, plain)
  }

  ghost predicate Matches(root: Key, r: Record, key: Key, nonce: Bytes, plain: Bytes) {
    KeyAt(root, r.epoch) == key && NonceOf(r.epoch, r.counter) == nonce && Fits(r.frame.header) && EncodeFrame(r.frame) == plain
  }

  /** Unforgeability for one presented frame. */
  ghost predicate Unforged(aead: Aead, root: Key, log: seq<Record>, ef: EncryptedFrame) {
    forall e: nat, plain {:trigger Logged(root, log, KeyAt(root, e), ef.nonce, plain)} :: aead.open(KeyAt(root, e), ef.nonce, ef.sealed) == Plain(plain) ==>
      Logged(root, log, KeyAt(root, e), ef.nonce, plain)
  }

  ghost predicate Enabled(aead: Aead, root: Key, c: Channel, step: Step) {
    match step
    case SealStep(f) => Fits(f.header) && CanEncrypt(c.enc)
    case RotateSenderStep => c.enc.epoch + 1 < U32
    case InputStep(ef) => FrameTyped(ef) && Unforged(aead, root, c.log, ef)
    case RotateReceiverStep => c.dec.epoch + 1 < U32
  }

  function Input(aead: Aead, c: Channel, ef: EncryptedFrame): Channel
    requires FrameTyped(ef)
  {
    var counter := NonceCounter(ef.nonce);
    var (r, dec) := DecryptOne(aead, c.dec, ef);
    var seen :=
      if dec.epoch != c.dec.epoch then Accept(NOTHING, counter)
      else if ef.epoch == c.dec.epoch && Admit(c.dec.window, counter).accepted then Accept(c.seen, counter)
      else c.seen;
    var returned := if r.Decrypted? then c.returned + [Record(dec.epoch, counter, r.frame)] else c.returned;
    c.(dec := dec, seen := seen, returned := returned)
  }

  ghost function Apply(aead: Aead, root: Key, c: Channel, step: Step): Channel
    requires Enabled(aead, root, c, step)
  {
    match step
    case SealStep(f) =>
      c.(enc := EncryptOne(aead, c.enc, f).1, log := c.log + [Record(c.enc.epoch, c.enc.counter, f)])
    case RotateSenderStep => c.(enc := RotateEncryptor(c.enc))
    case InputStep(ef) => Input(aead, c, ef)
    case RotateReceiverStep => c.(dec := RotateDecryptor(c.dec), seen := NOTHING)
  }

  ghost predicate Run(aead: Aead, root: Key, states: seq<Channel>, steps: seq<Step>) {
    && |states| == |steps| + 1
    && states[0] == NewChannel(root)
    && forall k :: 0 <= k < |steps| ==>
         Enabled(aead, root, states[k], steps[k]) && states[k + 1] == Apply(aead, root, states[k], steps[k])
  }

  // ---------- Invariant ----------

  predicate LexLess(e1: nat, c1: nat, e2: nat, c2: nat) {
    e1 < e2 || (e1 == e2 && c1 < c2)
  }

  /** Seals carry strictly increasing (epoch, counter) pairs, all before the sender's next pair. */
  ghost predicate LogOk(log: seq<Record>, enc: Encryptor) {
    && enc.epoch < U32 && enc.counter < U64
    && (forall k :: 0 <= k < |log| ==> log[k].epoch < U32 && log[k].counter < U64 && Fits(log[k].frame.header))
    && (forall k :: 0 <= k < |log| ==> LexLess(log[k].epoch, log[k].counter, enc.epoch, enc.counter))
    && (forall j, k :: 0 <= j < k < |log| ==> LexLess(log[j].epoch, log[j].counter, log[k].epoch, log[k].counter))
  }

  /** A returned frame was sealed; its epoch has been reached; if current, its counter is in the window's history. */
  ghost predicate ReturnOk(r: Record, log: seq<Record>, epoch: nat, seen: set<nat>) {
    r in log && r.epoch <= epoch && (r.epoch == epoch ==> r.counter in seen)
  }

  ghost predicate ReturnsOk(returned: seq<Record>, log: seq<Record>, epoch: nat, seen: set<nat>) {
    forall k :: 0 <= k < |returned| ==> ReturnOk(returned[k], log, epoch, seen)
  }

  /** No (epoch, counter) pair is returned twice, and epochs are returned in order. */
  ghost predicate ReturnedOnce(returned: seq<Record>) {
    forall j, k :: 0 <= j < k < |returned| ==>
      returned[j].epoch <= returned[k].epoch &&
      (returned[j].epoch == returned[k].epoch ==> returned[j].counter != returned[k].counter)
  }

  ghost predicate Inv(root: Key, c: Channel) {
    && c.enc.key == KeyAt(root, c.enc.epoch)
    && c.dec.key == KeyAt(root, c.dec.epoch)
    && LogOk(c.log, c.enc)
    && Represents(c.dec.window, c.seen)
    && ReturnsOk(c.returned, c.log, c.dec.epoch, c.seen.values)
    && ReturnedOnce(c.returned)
  }

  // ---------- Steps ----------

  lemma SealKeeps(aead: Aead, root: Key, c: Channel, f: Frame)
    requires Inv(root, c) && Enabled(aead, root, c, SealStep(f))
    ensures Inv(root, Apply(aead, root, c, SealStep(f)))
  {
    var r := Record(c.enc.epoch, c.enc.counter, f);
    LogOneMore(c.log, c.enc, r);
    ReturnsMonotone(c.returned, c.log, c.log + [r], c.dec.epoch, c.seen.values);
  }

  lemma LogOneMore(log: seq<Record>, enc: Encryptor, r: Record)
    requires LogOk(log, enc) && CanEncrypt(enc)
    requires r.epoch == enc.epoch && r.counter == enc.counter && Fits(r.frame.header)
    ensures LogOk(log + [r], enc.(counter := enc.counter + 1))
  {
  }

  lemma ReturnsMonotone(returned: seq<Record>, log: seq<Record>, log': seq<Record>, epoch: nat, seen: set<nat>)
    requires ReturnsOk(returned, log, epoch, seen) && log <= log'
    ensures ReturnsOk(returned, log', epoch, seen)
  {
    forall k | 0 <= k < |returned| ensures ReturnOk(returned[k], log', epoch, seen) {
      assert ReturnOk(returned[k], log, epoch, seen);
      var j :| 0 <= j < |log| && log[j] == returned[k];
      assert log'[j] == returned[k];
    }
  }

  /** When bytes open under the key of an epoch, the log holds the frame with exactly that epoch and counter. */
  lemma {:induction false} OpenedIsLogged(aead: Aead, root: Key, log: seq<Record>, enc: Encryptor, ef: EncryptedFrame, e: nat, plain: Bytes)
    requires LogOk(log, enc) && FrameTyped(ef) && Unforged(aead, root, log, ef) && e < U32
    requires aead.open(KeyAt(root, e), ef.nonce, ef.sealed) == Plain(plain)
    ensures exists k :: 0 <= k < |log| && log[k].epoch == e && log[k].counter == NonceCounter(ef.nonce)
                        && Fits(log[k].frame.header) && EncodeFrame(log[k].frame) == plain
  {
    assert Logged(root, log, KeyAt(root, e), ef.nonce, plain);
    var k :| 0 <= k < |log| && Matches(root, log[k], KeyAt(root, e), ef.nonce, plain);
    KeysDiffer(root, log[k].epoch, e);
    NonceRoundTrip(log[k].epoch, log[k].counter);
  }

  /** Hence a frame handed to the caller is the very frame the sender sealed there. */
  lemma {:induction false} ReturnedIsLogged(aead: Aead, root: Key, log: seq<Record>, enc: Encryptor, ef: EncryptedFrame, e: nat, plain: Bytes)
    requires LogOk(log, enc) && FrameTyped(ef) && Unforged(aead, root, log, ef) && e < U32
    requires aead.open(KeyAt(root, e), ef.nonce, ef.sealed) == Plain(plain) && Parsed(plain).Decrypted?
    ensures Record(e, NonceCounter(ef.nonce), Parsed(plain).frame) in log
  {
    OpenedIsLogged(aead, root, log, enc, ef, e, plain);
    var k :| 0 <= k < |log| && log[k].epoch == e && log[k].counter == NonceCounter(ef.nonce)
             && Fits(log[k].frame.header) && EncodeFrame(log[k].frame) == plain;
    DecodeUndoesEncode(log[k].frame);
    assert log[k] == Record(e, NonceCounter(ef.nonce), Parsed(plain).frame);
  }

  lemma ReturnOneMore(returned: seq<Record>, log: seq<Record>, epoch: nat, seen: set<nat>, r: Record)
    requires ReturnsOk(returned, log, epoch, seen) && ReturnedOnce(returned)
    requires r in log && r.epoch == epoch && r.counter !in seen
    ensures ReturnsOk(returned + [r], log, epoch, seen + {r.counter}) && ReturnedOnce(returned + [r])
  {
    var returned' := returned + [r];
    forall k | 0 <= k < |returned'| ensures ReturnOk(returned'[k], log, epoch, seen + {r.counter}) {
      if k < |returned| { assert ReturnOk(returned[k], log, epoch, seen); }
    }
    forall j, k | 0 <= j < k < |returned'|
      ensures returned'[j].epoch <= returned'[k].epoch &&
              (returned'[j].epoch == returned'[k].epoch ==> returned'[j].counter != returned'[k].counter)
    {
      assert ReturnOk(returned[j], log, epoch, seen);
    }
  }

  lemma MoreSeen(returned: seq<Record>, log: seq<Record>, epoch: nat, seen: set<nat>, seen': set<nat>)
    requires ReturnsOk(returned, log, epoch, seen) && seen <= seen'
    ensures ReturnsOk(returned, log, epoch, seen')
  {
    forall k | 0 <= k < |returned| ensures ReturnOk(returned[k], log, epoch, seen') {
      assert ReturnOk(returned[k], log, epoch, seen);
    }
  }

  /** A new epoch starts with nothing returned in it. */
  lemma NextEpoch(returned: seq<Record>, log: seq<Record>, epoch: nat, seen: set<nat>)
    requires ReturnsOk(returned, log, epoch, seen)
    ensures ReturnsOk(returned, log, epoch + 1, {})
  {
    forall k | 0 <= k < |returned| ensures ReturnOk(returned[k], log, epoch + 1, {}) {
      assert ReturnOk(returned[k], log, epoch, seen);
    }
  }

  lemma InputSameEpoch(aead: Aead, root: Key, c: Channel, ef: EncryptedFrame)
    requires Inv(root, c) && Enabled(aead, root, c, InputStep(ef)) && ef.epoch == c.dec.epoch
    ensures Inv(root, Input(aead, c, ef))
  {
    var counter := NonceCounter(ef.nonce);
    AdmitRefinesSet(c.dec.window, c.seen, counter);
    var c' := Input(aead, c, ef);
    if Admit(c.dec.window, counter).accepted {
      var out := aead.open(c.dec.key, ef.nonce, ef.sealed);
      if out.Plain? && Parsed(out.bytes).Decrypted? {
        ReturnedIsLogged(aead, root, c.log, c.enc, ef, ef.epoch, out.bytes);
        ReturnOneMore(c.returned, c.log, c.dec.epoch, c.seen.values, Record(ef.epoch, counter, Parsed(out.bytes).frame));
      } else {
        MoreSeen(c.returned, c.log, c.dec.epoch, c.seen.values, c'.seen.values);
      }
    }
  }

  lemma InputNextEpoch(aead: Aead, root: Key, c: Channel, ef: EncryptedFrame)
    requires Inv(root, c) && Enabled(aead, root, c, InputStep(ef)) && ef.epoch == c.dec.epoch + 1
    ensures Inv(root, Input(aead, c, ef))
  {
    InputNextValue(aead, c, ef);
    InputNextInv(aead, root, c, ef, Input(aead, c, ef));
  }

  /** Committing to the next epoch keeps the invariant. */
  lemma InputNextInv(aead: Aead, root: Key, c: Channel, ef: EncryptedFrame, c': Channel)
    requires Inv(root, c) && FrameTyped(ef) && Unforged(aead, root, c.log, ef) && ef.epoch == c.dec.epoch + 1
    requires var counter := NonceCounter(ef.nonce);
             var key := Derived(c.dec.key, ef.epoch);
             var out := aead.open(key, ef.nonce, ef.sealed);
             && (out.Rejected? ==> c' == c)
             && (out.Plain? ==>
                   && c'.enc == c.enc && c'.log == c.log
                   && c'.dec.key == key && c'.dec.epoch == ef.epoch
                   && c'.seen.values == {counter} && Represents(c'.dec.window, c'.seen)
                   && c'.returned == if Parsed(out.bytes).Decrypted?
                                     then c.returned + [Record(ef.epoch, counter, Parsed(out.bytes).frame)] else c.returned)
    ensures Inv(root, c')
  {
    var out := aead.open(Derived(c.dec.key, ef.epoch), ef.nonce, ef.sealed);
    if out.Plain? {
      NextEpoch(c.returned, c.log, c.dec.epoch, c.seen.values);
      ReturnsAfterCommit(aead, root, c.log, c.enc, c.returned, ef, out.bytes);
    }
  }

  /** What a next-epoch frame does: nothing unless it authenticates, else the new epoch is committed. */
  lemma InputNextValue(aead: Aead, c: Channel, ef: EncryptedFrame)
    requires FrameTyped(ef) && ef.epoch == c.dec.epoch + 1
    ensures var counter := NonceCounter(ef.nonce);
            var key := Derived(c.dec.key, ef.epoch);
            var out := aead.open(key, ef.nonce, ef.sealed);
            var c' := Input(aead, c, ef);
            && (out.Rejected? ==> c' == c)
            && (out.Plain? ==>
                  && c'.enc == c.enc && c'.log == c.log
                  && c'.dec.key == key && c'.dec.epoch == ef.epoch
                  && c'.seen.values == {counter} && Represents(c'.dec.window, c'.seen)
                  && c'.returned == if Parsed(out.bytes).Decrypted?
                                    then c.returned + [Record(ef.epoch, counter, Parsed(out.bytes).frame)] else c.returned)
  {
    FirstOfEpoch(NonceCounter(ef.nonce));
  }

  lemma FirstOfEpoch(counter: nat)
    ensures Admit(FRESH, counter).accepted
    ensures Represents(Admit(FRESH, counter).next, Accept(NOTHING, counter))
    ensures Accept(NOTHING, counter).values == {counter}
  {
    FreshRepresentsNothing();
    AdmitRefinesSet(FRESH, NOTHING, counter);
  }

  lemma {:induction false} ReturnsAfterCommit(aead: Aead, root: Key, log: seq<Record>, enc: Encryptor, returned: seq<Record>,
                           ef: EncryptedFrame, plain: Bytes)
    requires LogOk(log, enc) && FrameTyped(ef) && Unforged(aead, root, log, ef)
    requires aead.open(KeyAt(root, ef.epoch), ef.nonce, ef.sealed) == Plain(plain)
    requires ReturnsOk(returned, log, ef.epoch, {}) && ReturnedOnce(returned)
    ensures var counter := NonceCounter(ef.nonce);
            var returned' := if Parsed(plain).Decrypted?
                             then returned + [Record(ef.epoch, counter, Parsed(plain).frame)] else returned;
            ReturnsOk(returned', log, ef.epoch, {counter}) && ReturnedOnce(returned')
  {
    var counter := NonceCounter(ef.nonce);
    assert {} + {counter} == {counter};
    if Parsed(plain).Decrypted? {
      ReturnedIsLogged(aead, root, log, enc, ef, ef.epoch, plain);
      ReturnOneMore(returned, log, ef.epoch, {}, Record(ef.epoch, counter, Parsed(plain).frame));
    } else {
      MoreSeen(returned, log, ef.epoch, {}, {counter});
    }
  }

  lemma StepKeeps(aead: Aead, root: Key, c: Channel, step: Step)
    requires Inv(root, c) && Enabled(aead, root, c, step)
    ensures Inv(root, Apply(aead, root, c, step))
  {
    match step
    case SealStep(f) => SealKeeps(aead, root, c, f);
    case RotateSenderStep =>
    case InputStep(ef) =>
      if ef.epoch == c.dec.epoch {
        InputSameEpoch(aead, root, c, ef);
      } else if ef.epoch == c.dec.epoch + 1 {
        InputNextEpoch(aead, root, c, ef);
      }
    case RotateReceiverStep =>
      FreshRepresentsNothing();
      NextEpoch(c.returned, c.log, c.dec.epoch, c.seen.values);
  }

  lemma {:induction false} RunKeeps(aead: Aead, root: Key, states: seq<Channel>, steps: seq<Step>, n: nat)
    requires Run(aead, root, states, steps) && n <= |steps|
    ensures Inv(root, states[n])
  {
    if n == 0 {
      FreshRepresentsNothing();
    } else {
      RunKeeps(aead, root, states, steps, n - 1);
      StepKeeps(aead, root, states[n - 1], steps[n - 1]);
    }
  }

  // ---------- Main results ----------

  /** Over every run, every returned frame is one the sender sealed, with its epoch and counter, and no
      seal is returned twice, across all epochs. */
  lemma ReturnedFramesAreGenuineAndOnce(aead: Aead, root: Key, states: seq<Channel>, steps: seq<Step>)
    requires Run(aead, root, states, steps)
    ensures var c := states[|steps|];
            && (forall k :: 0 <= k < |c.returned| ==> c.returned[k] in c.log)
            && (forall j, k :: 0 <= j < k < |c.returned| ==> c.returned[j] != c.returned[k])
            && ReturnedOnce(c.returned)
  {
    RunKeeps(aead, root, states, steps, |steps|);
    var c := states[|steps|];
    forall k | 0 <= k < |c.returned| ensures c.returned[k] in c.log {
      assert ReturnOk(c.returned[k], c.log, c.dec.epoch, c.seen.values);
    }
    forall j, k | 0 <= j < k < |c.returned| ensures c.returned[j] != c.returned[k] {
      assert c.returned[j].epoch <= c.returned[k].epoch;
    }
  }

  /** The receiver's key is always the sender's key for that epoch: whenever their epochs agree, so do their keys. */
  lemma KeysAgree(aead: Aead, root: Key, states: seq<Channel>, steps: seq<Step>, j: nat, k: nat)
    requires Run(aead, root, states, steps) && j <= |steps| && k <= |steps|
    requires states[j].enc.epoch == states[k].dec.epoch
    ensures states[j].enc.key == states[k].dec.key
  {
    RunKeeps(aead, root, states, steps, j);
    RunKeeps(aead, root, states, steps, k);
  }

  /** Feeding a frame moves the epoch by at most one, and only when the sender has sealed a frame in the
      next epoch with the presented counter. Everything else leaves epoch and key alone. */
  lemma EpochAdvancesOnlyAuthenticated(aead: Aead, root: Key, c: Channel, ef: EncryptedFrame)
    requires Inv(root, c) && Enabled(aead, root, c, InputStep(ef))
    ensures var c' := Input(aead, c, ef);
            || (c'.dec.epoch == c.dec.epoch && c'.dec.key == c.dec.key)
            || (c'.dec.epoch == c.dec.epoch + 1 == ef.epoch
                && exists k :: 0 <= k < |c.log| && c.log[k].epoch == ef.epoch && c.log[k].counter == NonceCounter(ef.nonce))
  {
    if ef.epoch == c.dec.epoch + 1 {
      InputNextValue(aead, c, ef);
      var out := aead.open(Derived(c.dec.key, ef.epoch), ef.nonce, ef.sealed);
      if out.Plain? { OpenedIsLogged(aead, root, c.log, c.enc, ef, ef.epoch, out.bytes); }
    } else {
      OtherEpochsStay(aead, c, ef);
    }
  }

  lemma OtherEpochsStay(aead: Aead, c: Channel, ef: EncryptedFrame)
    requires FrameTyped(ef) && ef.epoch != c.dec.epoch + 1
    ensures Input(aead, c, ef).dec.epoch == c.dec.epoch && Input(aead, c, ef).dec.key == c.dec.key
  {
  }

  /** The receiver's epoch never goes down. */
  lemma {:induction false} EpochNeverFalls(aead: Aead, root: Key, states: seq<Channel>, steps: seq<Step>, j: nat, k: nat)
    requires Run(aead, root, states, steps) && j <= k <= |steps|
    ensures states[j].dec.epoch <= states[k].dec.epoch
  {
    if j < k {
      EpochNeverFalls(aead, root, states, steps, j, k - 1);
      StepEpoch(aead, root, states[k - 1], steps[k - 1]);
    }
  }

  lemma StepEpoch(aead: Aead, root: Key, c: Channel, step: Step)
    requires Enabled(aead, root, c, step)
    ensures c.dec.epoch <= Apply(aead, root, c, step).dec.epoch <= c.dec.epoch + 1
  {
  }

  /** Over every run of seals and rotations, no nonce is used twice under one key. */
  lemma {:induction false} NoNonceReuse(aead: Aead, root: Key, states: seq<Channel>, steps: seq<Step>, j: nat, k: nat)
    requires Run(aead, root, states, steps) && j < k < |states[|steps|].log|
    ensures var log := states[|steps|].log;
            && LexLess(log[j].epoch, log[j].counter, log[k].epoch, log[k].counter)
            && NonceOf(log[j].epoch, log[j].counter) != NonceOf(log[k].epoch, log[k].counter)
            && (KeyAt(root, log[j].epoch) == KeyAt(root, log[k].epoch) ==> log[j].counter < log[k].counter)
  {
    RunKeeps(aead, root, states, steps, |steps|);
    var log := states[|steps|].log;
    if NonceOf(log[j].epoch, log[j].counter) == NonceOf(log[k].epoch, log[k].counter) {
      NonceInjective(log[j].epoch, log[j].counter, log[k].epoch, log[k].counter);
    }
    if KeyAt(root, log[j].epoch) == KeyAt(root, log[k].epoch) { KeysDiffer(root, log[j].epoch, log[k].epoch); }
  }

  // ---------- What survives forged input ----------

  /** The receiver after frames were presented to it, forged or genuine. */
  function Presented(aead: Aead, d: Decryptor, frames: seq<EncryptedFrame>): Decryptor
    requires forall k :: 0 <= k < |frames| ==> FrameTyped(frames[k])
  {
    if frames == [] then d
    else DecryptOne(aead, Presented(aead, d, frames[..|frames| - 1]), frames[|frames| - 1]).1
  }

  /** The frame opens under the key and holds `f`. */
  predicate Holds(aead: Aead, key: Key, ef: EncryptedFrame, f: Frame) {
    match aead.open(key, ef.nonce, ef.sealed)
    case Rejected => false
    case Plain(plain) => Parsed(plain) == Decrypted(f)
  }

  /** The frame takes the receiver into the next epoch. */
  predicate Commits(aead: Aead, d: Decryptor, ef: EncryptedFrame) {
    ef.epoch == d.epoch + 1 && aead.open(Derived(d.key, d.epoch + 1), ef.nonce, ef.sealed).Plain?
  }

  /** The counters that have been presented in the receiver's current epoch, whether or not their frames
      authenticated: `before` if it is still in the epoch it started in, and otherwise from the one that took it there. */
  function Current(aead: Aead, d: Decryptor, before: seq<nat>, frames: seq<EncryptedFrame>): seq<nat>
    requires forall k :: 0 <= k < |frames| ==> FrameTyped(frames[k])
  {
    if frames == [] then before
    else
      var n := |frames| - 1;
      Counted(aead, Presented(aead, d, frames[..n]), Current(aead, d, before, frames[..n]), frames[n])
  }

  /** One more frame is presented. */
  function Counted(aead: Aead, d: Decryptor, earlier: seq<nat>, ef: EncryptedFrame): seq<nat>
    requires FrameTyped(ef)
  {
    if ef.epoch == d.epoch then earlier + [NonceCounter(ef.nonce)]
    else if Commits(aead, d, ef) then [NonceCounter(ef.nonce)]
    else earlier
  }

  /** Exactly those counters make up the window. */
  lemma {:induction false} CurrentIsWindow(aead: Aead, d: Decryptor, before: seq<nat>, frames: seq<EncryptedFrame>)
    requires d.window == After(FRESH, before)
    requires forall k :: 0 <= k < |frames| ==> FrameTyped(frames[k])
    ensures Presented(aead, d, frames).window == After(FRESH, Current(aead, d, before, frames))
  {
    if frames != [] {
      var n := |frames| - 1;
      CurrentIsWindow(aead, d, before, frames[..n]);
      WindowStep(aead, Presented(aead, d, frames[..n]), Current(aead, d, before, frames[..n]), frames[n]);
    }
  }

  lemma {:induction false} WindowStep(aead: Aead, d: Decryptor, earlier: seq<nat>, ef: EncryptedFrame)
    requires FrameTyped(ef) && d.window == After(FRESH, earlier)
    ensures DecryptOne(aead, d, ef).1.window == After(FRESH, Counted(aead, d, earlier, ef))
  {
    var c := NonceCounter(ef.nonce);
    AfterSnoc(earlier, c);
    AfterSnoc([], c);
    assert [] + [c] == [c];
    FreshAdmits(c);
  }

  lemma {:induction false} AfterSnoc(vs: seq<nat>, c: nat)
    ensures After(FRESH, vs + [c]) == Admit(After(FRESH, vs), c).next
  {
    assert (vs + [c])[..|vs|] == vs;
  }

  lemma FreshAdmits(c: nat)
    ensures Admit(FRESH, c).accepted
  {
    AcceptedIfFirst([c], 0);
    assert [c][..0] == [];
  }

  /** While no frame takes the receiver on, the current counters are those of the frames of its epoch. */
  lemma {:induction false} CurrentInEpoch(aead: Aead, d: Decryptor, before: seq<nat>, frames: seq<EncryptedFrame>)
    requires forall k :: 0 <= k < |frames| ==> FrameTyped(frames[k])
    requires Presented(aead, d, frames).epoch == d.epoch
    ensures Current(aead, d, before, frames) == before + CountersOf(frames, d.epoch)
  {
    if frames != [] {
      PresentedEpoch(aead, d, frames[..|frames| - 1]);
      CurrentInEpoch(aead, d, before, frames[..|frames| - 1]);
    }
  }

  function CountersOf(frames: seq<EncryptedFrame>, epoch: nat): seq<nat>
    requires forall k :: 0 <= k < |frames| ==> FrameTyped(frames[k])
  {
    if frames == [] then [] else CountersOf(frames[..|frames| - 1], epoch) + CounterIf(frames[|frames| - 1], epoch)
  }

  function CounterIf(ef: EncryptedFrame, epoch: nat): seq<nat>
    requires FrameTyped(ef)
  {
    if ef.epoch == epoch then [NonceCounter(ef.nonce)] else []
  }

  lemma {:induction false} PresentedEpoch(aead: Aead, d: Decryptor, frames: seq<EncryptedFrame>)
    requires forall k :: 0 <= k < |frames| ==> FrameTyped(frames[k])
    ensures Presented(aead, d, frames).epoch >= d.epoch
  {
    if frames != [] { PresentedEpoch(aead, d, frames[..|frames| - 1]); }
  }

  /** No earlier counter equals this one or lies 64 or more ahead of it. */
  ghost predicate Unspoilt(vs: seq<nat>, c: nat) {
    forall j :: 0 <= j < |vs| ==> vs[j] != c && vs[j] < c + WINDOW
  }

  lemma {:induction false} UnspoiltIsAdmitted(vs: seq<nat>, c: nat)
    ensures Admit(After(FRESH, vs), c).accepted <==> Unspoilt(vs, c)
  {
    var all := vs + [c];
    AcceptedIfFirst(all, |vs|);
    assert all[..|vs|] == vs && all[|vs|] == c;
    assert forall j :: 0 <= j < |vs| ==> all[j] == vs[j];
  }

  /** Genuine in the receiver's epoch and not spoilt by the counters presented there, or genuine in the next. */
  ghost predicate Survives(aead: Aead, d: Decryptor, current: seq<nat>, ef: EncryptedFrame, f: Frame)
    requires FrameTyped(ef)
  {
    || (ef.epoch == d.epoch && Holds(aead, d.key, ef, f) && Unspoilt(current, NonceCounter(ef.nonce)))
    || (ef.epoch == d.epoch + 1 && Holds(aead, Derived(d.key, d.epoch + 1), ef, f))
  }

  /** Main result: whatever frames of whatever epochs were presented before, forged or genuine, a frame is
      returned if and only if it survives them. */
  lemma {:induction false} ReturnedExactly(aead: Aead, d: Decryptor, before: seq<nat>, frames: seq<EncryptedFrame>,
                                           ef: EncryptedFrame, f: Frame)
    requires d.window == After(FRESH, before) && FrameTyped(ef)
    requires forall k :: 0 <= k < |frames| ==> FrameTyped(frames[k])
    ensures var d' := Presented(aead, d, frames);
            DecryptOne(aead, d', ef).0 == Decrypted(f) <==> Survives(aead, d', Current(aead, d, before, frames), ef, f)
  {
    CurrentIsWindow(aead, d, before, frames);
    ReturnedNext(aead, Presented(aead, d, frames), Current(aead, d, before, frames), ef, f);
  }

  lemma {:induction false} ReturnedNext(aead: Aead, d: Decryptor, current: seq<nat>, ef: EncryptedFrame, f: Frame)
    requires d.window == After(FRESH, current) && FrameTyped(ef)
    ensures DecryptOne(aead, d, ef).0 == Decrypted(f) <==> Survives(aead, d, current, ef, f)
  {
    UnspoiltIsAdmitted(current, NonceCounter(ef.nonce));
    FreshAdmits(NonceCounter(ef.nonce));
    DecryptMeans(aead, d, ef, f);
  }

  lemma DecryptMeans(aead: Aead, d: Decryptor, ef: EncryptedFrame, f: Frame)
    requires FrameTyped(ef)
    ensures DecryptOne(aead, d, ef).0 == Decrypted(f) <==>
              || (ef.epoch == d.epoch && Holds(aead, d.key, ef, f) && Admit(d.window, NonceCounter(ef.nonce)).accepted)
              || (&& ef.epoch == d.epoch + 1 && Holds(aead, Derived(d.key, d.epoch + 1), ef, f)
                  && Admit(FRESH, NonceCounter(ef.nonce)).accepted)
  {
    if ef.epoch == d.epoch {
      SameEpochResult(aead, d, ef, aead.open(d.key, ef.nonce, ef.sealed));
    } else if ef.epoch == d.epoch + 1 {
      NextEpochResult(aead, d, ef, aead.open(Derived(d.key, d.epoch + 1), ef.nonce, ef.sealed));
    }
  }

  lemma SameEpochResult(aead: Aead, d: Decryptor, ef: EncryptedFrame, out: Opened)
    requires FrameTyped(ef) && ef.epoch == d.epoch && out == aead.open(d.key, ef.nonce, ef.sealed)
    ensures DecryptOne(aead, d, ef).0 ==
              if Admit(d.window, NonceCounter(ef.nonce)).accepted then ResultOf(out) else ReplayDetected
  {
  }

  lemma NextEpochResult(aead: Aead, d: Decryptor, ef: EncryptedFrame, out: Opened)
    requires FrameTyped(ef) && ef.epoch == d.epoch + 1 && out == aead.open(Derived(d.key, d.epoch + 1), ef.nonce, ef.sealed)
    ensures DecryptOne(aead, d, ef).0 ==
              if Admit(FRESH, NonceCounter(ef.nonce)).accepted then ResultOf(out) else ReplayDetected
  {
  }

  /** In particular a genuine frame survives frames that do not take the receiver on exactly when none of
      those of its epoch, nor any counter before, spoils it. */
  lemma {:induction false} SurvivesExactly(aead: Aead, d: Decryptor, before: seq<nat>, frames: seq<EncryptedFrame>,
                                           ef: EncryptedFrame, f: Frame)
    requires d.window == After(FRESH, before) && FrameTyped(ef) && ef.epoch == d.epoch && Holds(aead, d.key, ef, f)
    requires forall k :: 0 <= k < |frames| ==> FrameTyped(frames[k])
    requires forall k :: 0 <= k < |frames| ==> !Commits(aead, d, frames[k])
    ensures DecryptOne(aead, Presented(aead, d, frames), ef).0 == Decrypted(f) <==>
              && Unspoilt(before, NonceCounter(ef.nonce))
              && Unspoilt(CountersOf(frames, d.epoch), NonceCounter(ef.nonce))
  {
    NoneCommits(aead, d, frames);
    CurrentInEpoch(aead, d, before, frames);
    ReturnedExactly(aead, d, before, frames, ef, f);
    UnspoiltBoth(before, CountersOf(frames, d.epoch), NonceCounter(ef.nonce));
  }

  lemma UnspoiltBoth(a: seq<nat>, b: seq<nat>, c: nat)
    ensures Unspoilt(a + b, c) <==> Unspoilt(a, c) && Unspoilt(b, c)
  {
    if Unspoilt(a + b, c) {
      forall j | 0 <= j < |a| ensures a[j] != c && a[j] < c + WINDOW { assert (a + b)[j] == a[j]; }
      forall j | 0 <= j < |b| ensures b[j] != c && b[j] < c + WINDOW { assert (a + b)[|a| + j] == b[j]; }
    }
  }

  lemma {:induction false} NoneCommits(aead: Aead, d: Decryptor, frames: seq<EncryptedFrame>)
    requires forall k :: 0 <= k < |frames| ==> FrameTyped(frames[k]) && !Commits(aead, d, frames[k])
    ensures Presented(aead, d, frames).epoch == d.epoch && Presented(aead, d, frames).key == d.key
  {
    if frames != [] { NoneCommits(aead, d, frames[..|frames| - 1]); }
  }

  /** An epoch entered in-band starts out with the counter of the frame that entered it. */
  lemma EnteredInBand(aead: Aead, d: Decryptor, ef: EncryptedFrame)
    requires FrameTyped(ef) && Commits(aead, d, ef)
    ensures var d' := DecryptOne(aead, d, ef).1;
            && d'.epoch == d.epoch + 1 && d'.key == Derived(d.key, d.epoch + 1)
            && d'.window == After(FRESH, [NonceCounter(ef.nonce)])
  {
    FreshAdmits(NonceCounter(ef.nonce));
    AfterSnoc([], NonceCounter(ef.nonce));
  }
}
