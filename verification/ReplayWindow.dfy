/** The 64-entry sliding window kept as one 64-bit mask, used unchanged by the duplicate filter of
    the reliable receiver and by the replay protection of the frame decryptor.

    `Admit` is the mask arithmetic. `Seen` is the independent reference: the set of everything
    accepted so far. The module shows that the mask is exactly a window onto that set, and from
    this reads off, for every input sequence, precisely which values are accepted.
 */
module ReplayWindow {
  import opened Words

  const WINDOW: nat := 64

  datatype Window = Window(max: nat, mask: nat)

  const FRESH := Window(0, 0)

  datatype Verdict = Verdict(accepted: bool, next: Window)

  function Admit(w: Window, v: nat): Verdict {
    if v <= w.max then
      var diff := w.max - v;
      if diff >= WINDOW then Verdict(false, w)
      else if Bit(w.mask, diff) then Verdict(false, w)
      else Verdict(true, Window(w.max, SetBit(w.mask, diff)))
    else
      var diff := v - w.max;
      Verdict(true, Window(v, if diff >= WINDOW then 1 else SetBit(ShiftLeft(w.mask, diff), 0)))
  }

  // ---------- The reference: a set of accepted values and its running maximum ----------

  datatype Seen = Seen(newest: nat, values: set<nat>)

  const NOTHING := Seen(0, {})

  predicate Acceptable(s: Seen, v: nat) {
    v !in s.values && s.newest < v + WINDOW
  }

  function Accept(s: Seen, v: nat): Seen {
    Seen(if v > s.newest then v else s.newest, s.values + {v})
  }

  ghost predicate Represents(w: Window, s: Seen) {
    && w.max == s.newest
    && w.mask < Pow2(64)
    && (forall x :: x in s.values ==> x <= s.newest)
    && BitsMatch(w, s.values)
  }

  ghost predicate BitsMatch(w: Window, values: set<nat>) {
    forall i: nat :: i < WINDOW ==> (Bit(w.mask, i) <==> i <= w.max && (w.max - i) in values)
  }

  lemma FreshRepresentsNothing()
    ensures Represents(FRESH, NOTHING)
  {
    forall i: nat | i < WINDOW ensures !Bit(0, i) { ZeroBits(i); }
  }

  /** One step: the mask accepts exactly what the set accepts, and stays a window onto it. */
  lemma AdmitRefinesSet(w: Window, s: Seen, v: nat)
    requires Represents(w, s)
    ensures Admit(w, v).accepted <==> Acceptable(s, v)
    ensures Represents(Admit(w, v).next, if Acceptable(s, v) then Accept(s, v) else s)
  {
    if v <= w.max {
      var diff := w.max - v;
      if diff < WINDOW && !Bit(w.mask, diff) { AdmitOlder(w, s, v); }
    } else if v - w.max >= WINDOW {
      AdmitFarAhead(w, s, v);
    } else {
      AdmitAhead(w, s, v);
    }
  }

  lemma {:induction false} AdmitOlder(w: Window, s: Seen, v: nat)
    requires Represents(w, s)
    requires v <= w.max && w.max - v < WINDOW && !Bit(w.mask, w.max - v)
    ensures Represents(Admit(w, v).next, Accept(s, v))
  {
    var diff := w.max - v;
    SetBitFits(w.mask, diff, 64);
    forall i: nat | i < WINDOW
      ensures Bit(SetBit(w.mask, diff), i) <==> i <= w.max && (w.max - i) in Accept(s, v).values
    {
      SetBitBits(w.mask, diff, i);
      assert Bit(w.mask, i) <==> i <= w.max && (w.max - i) in s.values;
    }
  }

  lemma AdmitAhead(w: Window, s: Seen, v: nat)
    requires Represents(w, s)
    requires w.max < v < w.max + WINDOW
    ensures Represents(Admit(w, v).next, Accept(s, v))
  {
    AheadFits(w.mask, v - w.max);
    AheadBits(w, s, v);
    AheadNext(w, v);
    AcceptRepresents(Window(v, SetBit(ShiftLeft(w.mask, v - w.max), 0)), s, v);
  }

  lemma AcceptRepresents(w: Window, s: Seen, v: nat)
    requires w.max == v && w.mask < Pow2(64) && BitsMatch(w, Accept(s, v).values)
    requires v > s.newest && forall x :: x in s.values ==> x <= s.newest
    ensures Represents(w, Accept(s, v))
  {
  }

  lemma {:induction false} AheadBits(w: Window, s: Seen, v: nat)
    requires Represents(w, s) && w.max < v < w.max + WINDOW
    ensures BitsMatch(Window(v, SetBit(ShiftLeft(w.mask, v - w.max), 0)), Accept(s, v).values)
  {
    var mask := SetBit(ShiftLeft(w.mask, v - w.max), 0);
    forall i: nat | i < WINDOW ensures Bit(mask, i) <==> i <= v && (v - i) in Accept(s, v).values {
      AheadBit(w, s, v, i);
    }
  }

  lemma {:induction false} AheadNext(w: Window, v: nat)
    requires w.max < v < w.max + WINDOW
    ensures Admit(w, v).next == Window(v, SetBit(ShiftLeft(w.mask, v - w.max), 0))
  {
  }

  lemma {:induction false} AheadFits(mask: nat, diff: nat)
    requires 0 < diff < WINDOW
    ensures SetBit(ShiftLeft(mask, diff), 0) < Pow2(64)
  {
    ShiftLeftFits(mask, diff);
    SetBitFits(ShiftLeft(mask, diff), 0, 64);
  }

  lemma AheadBit(w: Window, s: Seen, v: nat, i: nat)
    requires Represents(w, s) && w.max < v < w.max + WINDOW && i < WINDOW
    ensures Bit(SetBit(ShiftLeft(w.mask, v - w.max), 0), i) <==> i <= v && (v - i) in Accept(s, v).values
  {
    var diff := v - w.max;
    SetBitBits(ShiftLeft(w.mask, diff), 0, i);
    ShiftLeftBits(w.mask, diff, i);
    if diff <= i {
      assert Bit(w.mask, i - diff) <==> i - diff <= w.max && (w.max - (i - diff)) in s.values;
    }
  }

  lemma AdmitFarAhead(w: Window, s: Seen, v: nat)
    requires Represents(w, s)
    requires v >= w.max + WINDOW
    ensures Represents(Admit(w, v).next, Accept(s, v))
  {
    assert Pow2(64) >= 2 by { assert Pow2(64) == 2 * Pow2(63); }
    forall i: nat | i < WINDOW
      ensures Bit(1, i) <==> i <= v && (v - i) in Accept(s, v).values
    {
      if i > 0 { ZeroBits(i - 1); }
    }
  }

  // ---------- Whole input sequences ----------

  /** The window after a sequence of inputs. */
  function After(w: Window, vs: seq<nat>): Window {
    if vs == [] then w else Admit(After(w, vs[..|vs| - 1]), vs[|vs| - 1]).next
  }

  /** Whether the `k`-th input of the sequence is accepted, starting from a fresh window. */
  predicate AcceptedAt(vs: seq<nat>, k: nat)
    requires k < |vs|
  {
    Admit(After(FRESH, vs[..k]), vs[k]).accepted
  }

  function SeenAfter(vs: seq<nat>): Seen {
    if vs == [] then NOTHING
    else
      var s := SeenAfter(vs[..|vs| - 1]);
      var v := vs[|vs| - 1];
      if Acceptable(s, v) then Accept(s, v) else s
  }

  lemma {:induction false} WindowRefinesSet(vs: seq<nat>)
    ensures Represents(After(FRESH, vs), SeenAfter(vs))
  {
    if vs == [] {
      FreshRepresentsNothing();
    } else {
      var init := vs[..|vs| - 1];
      WindowRefinesSet(init);
      AdmitRefinesSet(After(FRESH, init), SeenAfter(init), vs[|vs| - 1]);
    }
  }

  ghost predicate AcceptedValue(vs: seq<nat>, x: nat) {
    exists j :: 0 <= j < |vs| && vs[j] == x && AcceptedAt(vs, j)
  }

  lemma PrefixVerdict(vs: seq<nat>, n: nat, j: nat)
    requires j < n <= |vs|
    ensures AcceptedAt(vs[..n], j) <==> AcceptedAt(vs, j)
  {
    assert vs[..n][..j] == vs[..j];
  }

  lemma AcceptedValueLast(vs: seq<nat>, x: nat)
    requires vs != []
    ensures AcceptedValue(vs, x) <==>
            AcceptedValue(vs[..|vs| - 1], x) || (vs[|vs| - 1] == x && AcceptedAt(vs, |vs| - 1))
  {
    var n := |vs| - 1;
    if AcceptedValue(vs, x) {
      var j :| 0 <= j < |vs| && vs[j] == x && AcceptedAt(vs, j);
      if j < n {
        PrefixVerdict(vs, n, j);
        assert vs[..n][j] == x && AcceptedAt(vs[..n], j);
      }
    }
    if AcceptedValue(vs[..n], x) {
      var j :| 0 <= j < n && vs[..n][j] == x && AcceptedAt(vs[..n], j);
      PrefixVerdict(vs, n, j);
      assert vs[j] == x && AcceptedAt(vs, j);
    }
  }

  /** The reference set holds the accepted inputs and nothing else. */
  lemma {:induction false} SeenHoldsAccepted(vs: seq<nat>, x: nat)
    ensures x in SeenAfter(vs).values <==> AcceptedValue(vs, x)
  {
    if vs != [] {
      var n := |vs| - 1;
      SeenHoldsAccepted(vs[..n], x);
      WindowRefinesSet(vs[..n]);
      AdmitRefinesSet(After(FRESH, vs[..n]), SeenAfter(vs[..n]), vs[n]);
      AcceptedValueLast(vs, x);
    }
  }

  /** Its newest value is the largest input, accepted or not. */
  lemma {:induction false} NewestIsMaximum(vs: seq<nat>)
    ensures forall j :: 0 <= j < |vs| ==> vs[j] <= SeenAfter(vs).newest
    ensures if vs == [] then SeenAfter(vs).newest == 0 else SeenAfter(vs).newest in vs
  {
    if vs != [] {
      var n := |vs| - 1;
      var init := vs[..n];
      NewestIsMaximum(init);
      WindowRefinesSet(init);
      forall j | 0 <= j < |vs| ensures vs[j] <= SeenAfter(vs).newest {
        if j < n { assert vs[j] == init[j]; }
      }
      if SeenAfter(vs).newest != vs[n] && init != [] {
        var j :| 0 <= j < n && init[j] == SeenAfter(init).newest;
        assert vs[j] == SeenAfter(vs).newest;
      }
    }
  }

  /** Hence an input is within the window of the newest exactly when it is within the window of every input. */
  lemma {:induction false} WithinNewest(vs: seq<nat>, v: nat)
    ensures SeenAfter(vs).newest < v + WINDOW <==> forall j :: 0 <= j < |vs| ==> vs[j] < v + WINDOW
  {
    NewestIsMaximum(vs);
  }

  /** Main result: over every input sequence, the input at position `k` is accepted exactly when
      no earlier accepted input had its value and every earlier input is less than 64 ahead of it. */
  lemma AcceptedExactly(vs: seq<nat>, k: nat)
    requires k < |vs|
    ensures AcceptedAt(vs, k) <==>
            && (forall j :: 0 <= j < k && AcceptedAt(vs, j) ==> vs[j] != vs[k])
            && (forall j :: 0 <= j < k ==> vs[j] < vs[k] + WINDOW)
  {
    var pre := vs[..k];
    WindowRefinesSet(pre);
    AdmitRefinesSet(After(FRESH, pre), SeenAfter(pre), vs[k]);
    SeenHoldsAccepted(pre, vs[k]);
    WithinNewest(pre, vs[k]);
    forall j | 0 <= j < k ensures pre[j] == vs[j] && (AcceptedAt(vs, j) <==> AcceptedAt(pre, j)) {
      PrefixVerdict(vs, k, j);
    }
    AcceptedExactlyFrom(vs, pre, k);
  }

  lemma {:induction false} AcceptedExactlyFrom(vs: seq<nat>, pre: seq<nat>, k: nat)
    requires k < |vs| && pre == vs[..k]
    requires AcceptedAt(vs, k) <==> Acceptable(SeenAfter(pre), vs[k])
    requires vs[k] in SeenAfter(pre).values <==> AcceptedValue(pre, vs[k])
    requires SeenAfter(pre).newest < vs[k] + WINDOW <==> forall j :: 0 <= j < |pre| ==> pre[j] < vs[k] + WINDOW
    requires forall j :: 0 <= j < k ==> pre[j] == vs[j] && (AcceptedAt(vs, j) <==> AcceptedAt(pre, j))
    ensures AcceptedAt(vs, k) <==>
            && (forall j :: 0 <= j < k && AcceptedAt(vs, j) ==> vs[j] != vs[k])
            && (forall j :: 0 <= j < k ==> vs[j] < vs[k] + WINDOW)
  {
    if AcceptedValue(pre, vs[k]) {
      var j :| 0 <= j < |pre| && pre[j] == vs[k] && AcceptedAt(pre, j);
      assert AcceptedAt(vs, j) && vs[j] == vs[k];
    } else {
      forall j | 0 <= j < k && AcceptedAt(vs, j) ensures vs[j] != vs[k] {
        assert AcceptedAt(pre, j) && pre[j] == vs[j];
      }
    }
    if forall j :: 0 <= j < k ==> vs[j] < vs[k] + WINDOW {
      forall j | 0 <= j < |pre| ensures pre[j] < vs[k] + WINDOW { assert pre[j] == vs[j]; }
    }
    if forall j :: 0 <= j < |pre| ==> pre[j] < vs[k] + WINDOW {
      forall j | 0 <= j < k ensures vs[j] < vs[k] + WINDOW { assert pre[j] == vs[j]; }
    }
  }

  /** The same without naming acceptance: an input is accepted exactly when it is the first of its value and
      every earlier input is less than 64 ahead of it. */
  lemma AcceptedIfFirst(vs: seq<nat>, k: nat)
    requires k < |vs|
    ensures AcceptedAt(vs, k) <==> forall j :: 0 <= j < k ==> vs[j] != vs[k] && vs[j] < vs[k] + WINDOW
  {
    AcceptedExactly(vs, k);
    if AcceptedAt(vs, k) {
      forall j | 0 <= j < k ensures vs[j] != vs[k] { AcceptedExactly(vs, j); }
    }
  }

  /** Hence no value is accepted twice in any run. */
  lemma AcceptedOnce(vs: seq<nat>, j: nat, k: nat)
    requires j < k < |vs| && AcceptedAt(vs, j) && AcceptedAt(vs, k)
    ensures vs[j] != vs[k]
  {
    AcceptedExactly(vs, k);
  }
}
