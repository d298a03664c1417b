/**
 The sliding anti-replay window of core/types/nonce_window.hpp (the technique of section 4.1.2.6
 of RFC 6347): the highest nonce seen and a 256-bit map of the ones just below it.
 */
module ReplayWindow {
  import opened Bits

  const WINDOW: nat := 256

  type Bitmap = s: seq<bool> | |s| == WINDOW witness Zeros(WINDOW)

  /** std::bitset's shift towards the high indices. */
  function ShiftUp(b: Bitmap, n: nat): (r: Bitmap)
    requires n <= WINDOW
    ensures forall i :: 0 <= i < WINDOW ==> r[i] == (i >= n && b[i - n])
  {
    Zeros(n) + b[..WINDOW - n]
  }

  datatype Window = Window(highest: nat, bits: Bitmap)

  const EMPTY := Window(0, Zeros(WINDOW))

  /** One call of accept: the new window and the verdict. */
  function Step(w: Window, nonce: nat): (Window, bool) {
    if nonce == 0 then (w, false)
    else if w.highest == 0 then (Window(nonce, Zeros(WINDOW)[0 := true]), true)
    else if nonce > w.highest then
      var shift := nonce - w.highest;
      var moved := if shift >= WINDOW then Zeros(WINDOW) else ShiftUp(w.bits, shift);
      (Window(nonce, moved[0 := true]), true)
    else
      var diff := w.highest - nonce;
      if diff >= WINDOW || w.bits[diff] then (w, false)
      else (w.(bits := w.bits[diff := true]), true)
  }

  // ---- What the window stands for: the plain set of nonces accepted since the last reset ----

  ghost predicate Represents(w: Window, seen: set<nat>) {
    && (forall n :: n in seen ==> 1 <= n <= w.highest)
    && (w.highest > 0 ==> w.highest in seen)
    && (forall i :: 0 <= i < WINDOW ==> (w.bits[i] <==> i <= w.highest && w.highest - i in seen))
  }

  /** The filter over the set: fresh, and not too old. */
  ghost predicate Fresh(highest: nat, seen: set<nat>, nonce: nat) {
    nonce > 0 && (nonce > highest || (highest - nonce < WINDOW && nonce !in seen))
  }

  lemma AcceptIsFresh(w: Window, seen: set<nat>, nonce: nat)
    requires Represents(w, seen)
    ensures var (w', ok) := Step(w, nonce);
            && (ok <==> Fresh(w.highest, seen, nonce))
            && Represents(w', if ok then seen + {nonce} else seen)
            && w'.highest == if ok && nonce > w.highest then nonce else w.highest
  {
    var (w', ok) := Step(w, nonce);
    if ok {
      var seen' := seen + {nonce};
      forall i | 0 <= i < WINDOW
        ensures w'.bits[i] <==> i <= w'.highest && w'.highest - i in seen'
      {
        if nonce > w.highest {
          var shift := nonce - w.highest;
          if 0 < i && shift <= i {
            assert nonce - i == w.highest - (i - shift);
          }
        }
      }
    }
  }

  // ---- Whole runs ----

  function Run(w: Window, nonces: seq<nat>): (Window, seq<bool>) {
    if nonces == [] then (w, [])
    else
      var n := |nonces| - 1;
      var (w1, oks) := Run(w, nonces[..n]);
      var (w2, ok) := Step(w1, nonces[n]);
      (w2, oks + [ok])
  }

  lemma {:induction false} RunLength(w: Window, nonces: seq<nat>)
    ensures |Run(w, nonces).1| == |nonces|
    decreases |nonces|
  {
    if nonces != [] {
      RunLength(w, nonces[..|nonces| - 1]);
    }
  }

  /** The nonces that a run accepted. */
  ghost function Taken(nonces: seq<nat>, oks: seq<bool>): set<nat>
    requires |oks| == |nonces|
  {
    set i | 0 <= i < |nonces| && oks[i] :: nonces[i]
  }

  /** After every run since a reset the window represents exactly the set of accepted nonces. */
  lemma {:induction false} RunRepresents(nonces: seq<nat>)
    ensures |Run(EMPTY, nonces).1| == |nonces|
    ensures Represents(Run(EMPTY, nonces).0, Taken(nonces, Run(EMPTY, nonces).1))
    decreases |nonces|
  {
    RunLength(EMPTY, nonces);
    if nonces == [] {
      assert Taken(nonces, []) == {};
    } else {
      var n := |nonces| - 1;
      RunRepresents(nonces[..n]);
      var (w1, oks) := Run(EMPTY, nonces[..n]);
      var (_, ok) := Step(w1, nonces[n]);
      var seen := Taken(nonces[..n], oks);
      AcceptIsFresh(w1, seen, nonces[n]);
      assert Taken(nonces, oks + [ok]) == (if ok then seen + {nonces[n]} else seen);
    }
  }

  /** A run's verdicts are a prefix of a longer run's verdicts. */
  lemma {:induction false} RunPrefix(w: Window, nonces: seq<nat>, k: nat)
    requires k <= |nonces|
    ensures |Run(w, nonces).1| == |nonces| && Run(w, nonces).1[..k] == Run(w, nonces[..k]).1
    decreases |nonces|
  {
    RunLength(w, nonces);
    RunLength(w, nonces[..k]);
    if k < |nonces| {
      var n := |nonces| - 1;
      RunPrefix(w, nonces[..n], k);
      assert nonces[..n][..k] == nonces[..k];
    } else {
      assert nonces[..k] == nonces;
    }
  }

  /**
   Over every run since a reset: the k-th verdict is true exactly when the nonce is positive and
   either above everything accepted so far or within 256 of it and never accepted.
   */
  lemma VerdictIffFresh(nonces: seq<nat>, k: nat)
    requires k < |nonces|
    ensures |Run(EMPTY, nonces).1| == |nonces| && |Run(EMPTY, nonces[..k]).1| == k
    ensures var before := Run(EMPTY, nonces[..k]);
            Run(EMPTY, nonces).1[k] <==> Fresh(before.0.highest, Taken(nonces[..k], before.1), nonces[k])
  {
    RunPrefix(EMPTY, nonces, k + 1);
    RunRepresents(nonces[..k]);
    var upTo := nonces[..k + 1];
    assert upTo[..k] == nonces[..k];
    var (w, oks) := Run(EMPTY, nonces[..k]);
    RunLength(EMPTY, upTo);
    assert Run(EMPTY, upTo).1 == oks + [Step(w, nonces[k]).1];
    assert Run(EMPTY, nonces).1[k] == Run(EMPTY, nonces).1[..k + 1][k];
    AcceptIsFresh(w, Taken(nonces[..k], oks), nonces[k]);
  }

  /** No nonce is ever accepted twice, in whatever order the nonces arrive. */
  lemma NeverTwice(nonces: seq<nat>, i: nat, j: nat)
    requires i < j < |nonces|
    ensures |Run(EMPTY, nonces).1| == |nonces|
    ensures Run(EMPTY, nonces).1[i] && Run(EMPTY, nonces).1[j] ==> nonces[i] != nonces[j]
  {
    VerdictIffFresh(nonces, j);
    RunPrefix(EMPTY, nonces, j);
    RunRepresents(nonces[..j]);
    var before := Run(EMPTY, nonces[..j]);
    assert Run(EMPTY, nonces).1[..j] == before.1;
    if Run(EMPTY, nonces).1[i] {
      assert before.1[i] && nonces[..j][i] == nonces[i];
      assert nonces[i] in Taken(nonces[..j], before.1);
    }
  }

  // ---- The structure itself ----

  class NonceWindow {
    var highestNonce: nat
    var bitmap: Bitmap
    ghost var seen: set<nat>

    ghost predicate Valid()
      reads this
    {
      Represents(View(), seen)
    }

    ghost function View(): Window
      reads this
    {
      Window(highestNonce, bitmap)
    }

    constructor ()
      ensures Valid() && View() == EMPTY && seen == {}
    {
      highestNonce := 0;
      bitmap := Zeros(WINDOW);
      seen := {};
    }

    method Accept(nonce: nat) returns (ok: bool)
      requires Valid()
      modifies this
      ensures Valid() && (View(), ok) == Step(old(View()), nonce)
      ensures ok <==> Fresh(old(highestNonce), old(seen), nonce)
      ensures seen == if ok then old(seen) + {nonce} else old(seen)
    {
      AcceptIsFresh(View(), seen, nonce);
      if nonce == 0 {
        return false;
      }
      if highestNonce == 0 {
        highestNonce := nonce;
        bitmap := Zeros(WINDOW);
        bitmap := bitmap[0 := true];
        seen := seen + {nonce};
        return true;
      }
      if nonce > highestNonce {
        var shift := nonce - highestNonce;
        bitmap := if shift >= WINDOW then Zeros(WINDOW) else ShiftUp(bitmap, shift);
        bitmap := bitmap[0 := true];
        highestNonce := nonce;
        seen := seen + {nonce};
        return true;
      }
      var diff := highestNonce - nonce;
      if diff >= WINDOW {
        return false;
      }
      if bitmap[diff] {
        return false;
      }
      bitmap := bitmap[diff := true];
      seen := seen + {nonce};
      return true;
    }

    method Reset()
      modifies this
      ensures Valid() && View() == EMPTY && seen == {}
    {
      highestNonce := 0;
      bitmap := Zeros(WINDOW);
      seen := {};
    }
  }
}
