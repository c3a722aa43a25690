/** A feedback sequence kept in a circular buffer, for words of any type: word
    j + 624 is a function of words j, j + 1 and j + 397, and overwrites word j. */
module CircularRecurrence {

  const LEN := 624
  const MID := 397

  /** Word j of the sequence that starts with w. */
  function X<T>(step: (T, T, T) -> T, w: seq<T>, j: nat): T
    requires |w| == LEN
  {
    if j < LEN then w[j]
    else step(X(step, w, j - LEN), X(step, w, j - LEN + 1), X(step, w, j - LEN + MID))
  }

  /** The recurrence in numbers. */
  lemma Recurrence<T>(step: (T, T, T) -> T, w: seq<T>, j: nat)
    requires |w| == 624
    ensures j < 624 ==> X(step, w, j) == w[j]
    ensures X(step, w, j + 624) == step(X(step, w, j), X(step, w, j + 1), X(step, w, j + 397))
  {}

  function WindowAt<T>(step: (T, T, T) -> T, w: seq<T>, k: nat): (v: seq<T>)
    requires |w| == LEN
    ensures |v| == LEN && forall i | 0 <= i < LEN :: v[i] == X(step, w, k + i)
  {
    seq(LEN, i requires 0 <= i < LEN => X(step, w, k + i))
  }

  /** Any window of the sequence restarts it. */
  lemma {:induction false} Restart<T>(step: (T, T, T) -> T, w: seq<T>, k: nat, j: nat)
    requires |w| == LEN
    ensures X(step, WindowAt(step, w, k), j) == X(step, w, k + j)
  {
    if j >= LEN {
      Restart(step, w, k, j - LEN);
      Restart(step, w, k, j - LEN + 1);
      Restart(step, w, k, j - LEN + MID);
    }
  }

  // ----- the circular buffer

  /** The number in k .. k + 623 that is i mod 624. */
  function Slot(k: nat, i: nat): nat
    requires i < LEN
  {
    var index := k % LEN;
    if i >= index then k - index + i else k - index + LEN + i
  }

  lemma SlotNext(k: nat, i: nat)
    requires i < LEN
    ensures Slot(k + 1, i) == if i == k % LEN then k + LEN else Slot(k, i)
  {}

  lemma SlotOf(k: nat, j: nat)
    requires k <= j < k + LEN
    ensures Slot(k, j % LEN) == j
  {}

  /** The indices of integer(), computed by comparison and subtraction, are residues. */
  lemma WrapAround(k: nat)
    ensures (k + 1) % 624 == if k % LEN + 1 >= LEN then 0 else k % LEN + 1
    ensures (k + 397) % 624 == if k % LEN + MID >= LEN then k % LEN + MID - LEN else k % LEN + MID
  {
    SlotNext(k, 0);
  }

  /** The buffer after k steps: words k .. k + 623, word j at index j mod 624. */
  function Image<T>(step: (T, T, T) -> T, w: seq<T>, k: nat): seq<T>
    requires |w| == LEN
  {
    seq(LEN, i requires 0 <= i < LEN => X(step, w, Slot(k, i)))
  }

  lemma ImageStart<T>(step: (T, T, T) -> T, w: seq<T>)
    requires |w| == LEN
    ensures Image(step, w, 0) == w
  {}

  lemma WordAt<T>(step: (T, T, T) -> T, w: seq<T>, k: nat, j: nat)
    requires |w| == LEN && k <= j < k + 624
    ensures Image(step, w, k)[j % 624] == X(step, w, j)
  {
    SlotOf(k, j);
  }

  /** Overwriting the oldest word with the feedback slides the window by one. */
  lemma Slide<T>(step: (T, T, T) -> T, b: seq<T>, w: seq<T>, k: nat, i: nat, i2: nat, j: nat)
    requires |w| == LEN && b == Image(step, w, k)
    requires i == k % 624 && i2 == (k + 1) % 624 && j == (k + 397) % 624
    ensures step(b[i], b[i2], b[j]) == X(step, w, k + 624)
    ensures b[i := step(b[i], b[i2], b[j])] == Image(step, w, k + 1)
  {
    WordAt(step, w, k, k);
    WordAt(step, w, k, k + 1);
    WordAt(step, w, k, k + MID);
    var b', c := b[i := step(b[i], b[i2], b[j])], Image(step, w, k + 1);
    forall h | 0 <= h < LEN
      ensures b'[h] == c[h]
    {
      SlotNext(k, h);
    }
  }
}
