/** The two shifting loops on word sequences, step by step. */
module WordShifts {
  import opened Numbers
  import opened Words

  /** A word after the first `i` words went left. */
  function LeftPart(a: seq<nat>, k: nat, s: nat, i: nat, m: nat): nat
    requires i <= |a| && s < 32
  {
    if m < i + k then LeftWord(a, k, s, m)
    else if m == i + k && i > 0 then SpilledWord(a[i - 1], s)
    else 0
  }

  ghost predicate LeftDone(a: seq<nat>, w: seq<nat>, k: nat, s: nat, i: nat)
    requires s < 32
  {
    i <= |a| == |w| && forall m :: 0 <= m < |w| ==> w[m] == LeftPart(a, k, s, i, m)
  }

  function SpillLeft(a: seq<nat>, w: seq<nat>, k: nat, s: nat, i: nat): (u: seq<nat>)
    requires i < |a| == |w| && s < 32
    ensures |u| == |w|
  {
    if i + k + 1 < |w| && s != 0 then w[i + k + 1 := Or(w[i + k + 1], HighBits(a[i], 32 - s))] else w
  }

  function MoveLeft(a: seq<nat>, w: seq<nat>, k: nat, s: nat, i: nat): (u: seq<nat>)
    requires i < |a| == |w| && s < 32
    ensures |u| == |w|
  {
    if i + k < |w| then w[i + k := Or(w[i + k], ShiftedWord(a[i], s))] else w
  }

  /** Moving a word up beside what the word below spilled. */
  lemma Joins(x: nat, spilled: nat, s: nat)
    requires s <= 32 && spilled < Pow2(s)
    ensures Or(spilled, ShiftedWord(x, s)) == ShiftedWord(x, s) + spilled
  {
    MultipleIsClear(LowBits(x, 32 - s), s);
    OrDisjoint(s, spilled, ShiftedWord(x, s));
  }

  lemma SpillAt(a: seq<nat>, w: seq<nat>, k: nat, s: nat, i: nat)
    requires s < 32 && LeftDone(a, w, k, s, i) && i < |a| && AllWords(a)
    ensures var u := SpillLeft(a, w, k, s, i);
      forall m :: 0 <= m < |w| ==> u[m] == if m == i + k + 1 then SpilledWord(a[i], s) else w[m]
  {
    WordParts(a[i], s);
    SpillIsSmall(a[i], s);
    var u := SpillLeft(a, w, k, s, i);
    forall m | 0 <= m < |w|
      ensures u[m] == if m == i + k + 1 then SpilledWord(a[i], s) else w[m]
    {
      assert m == i + k + 1 ==> w[m] == 0;
    }
  }

  lemma LeftOn(a: seq<nat>, w: seq<nat>, k: nat, s: nat, i: nat)
    requires s < 32 && LeftDone(a, w, k, s, i) && i < |a| && AllWords(a)
    ensures LeftDone(a, MoveLeft(a, SpillLeft(a, w, k, s, i), k, s, i), k, s, i + 1)
  {
    var u := SpillLeft(a, w, k, s, i);
    SpillAt(a, w, k, s, i);
    var v := MoveLeft(a, u, k, s, i);
    forall m | 0 <= m < |v|
      ensures v[m] == LeftPart(a, k, s, i + 1, m)
    {
      if m == i + k {
        if i > 0 {
          WordParts(a[i - 1], s);
          SpillIsSmall(a[i - 1], s);
        }
        Joins(a[i], u[m], s);
      }
    }
  }

  lemma LeftStart(a: seq<nat>, w: seq<nat>, k: nat, s: nat)
    requires s < 32 && |w| == |a| && forall m :: 0 <= m < |w| ==> w[m] == 0
    ensures LeftDone(a, w, k, s, 0)
  {
  }

  lemma LeftEnd(a: seq<nat>, w: seq<nat>, k: nat, s: nat)
    requires s < 32 && LeftDone(a, w, k, s, |a|) && AllWords(a)
    ensures w == LeftWords(a, k, s)
  {
  }

  /** A word after the first `i` words went right. */
  function RightPart(a: seq<nat>, k: nat, s: nat, i: nat, m: nat): nat
    requires s < 32
  {
    if m + k + 1 < i then RightWord(a, k, s, m)
    else if m + k + 1 == i && m + k < |a| then HighBits(a[m + k], s)
    else 0
  }

  ghost predicate RightDone(a: seq<nat>, w: seq<nat>, k: nat, s: nat, i: nat)
    requires s < 32
  {
    i <= |a| == |w| && forall m :: 0 <= m < |w| ==> w[m] == RightPart(a, k, s, i, m)
  }

  function SpillRight(a: seq<nat>, w: seq<nat>, k: nat, s: nat, i: nat): (u: seq<nat>)
    requires i < |a| == |w| && s < 32
    ensures |u| == |w|
  {
    if i - k - 1 >= 0 && s != 0 then w[i - k - 1 := Or(w[i - k - 1], ShiftedWord(a[i], 32 - s))] else w
  }

  function MoveRight(a: seq<nat>, w: seq<nat>, k: nat, s: nat, i: nat): (u: seq<nat>)
    requires i < |a| == |w| && s < 32
    ensures |u| == |w|
  {
    if i - k >= 0 then w[i - k := Or(w[i - k], HighBits(a[i], s))] else w
  }

  lemma RightOn(a: seq<nat>, w: seq<nat>, k: nat, s: nat, i: nat)
    requires s < 32 && RightDone(a, w, k, s, i) && i < |a| && AllWords(a)
    ensures RightDone(a, MoveRight(a, SpillRight(a, w, k, s, i), k, s, i), k, s, i + 1)
  {
    var u := SpillRight(a, w, k, s, i);
    var v := MoveRight(a, u, k, s, i);
    forall m | 0 <= m < |v|
      ensures v[m] == RightPart(a, k, s, i + 1, m)
    {
      if m + k + 1 == i {
        SpillIsSmall(a[i - 1], 32 - s);
        if s == 0 {
          WordParts(a[i], 32);
        } else {
          Joins(a[i], w[m], 32 - s);
        }
      }
    }
  }

  lemma RightEnd(a: seq<nat>, w: seq<nat>, k: nat, s: nat)
    requires s < 32 && RightDone(a, w, k, s, |a|)
    ensures w == RightWords(a, k, s)
  {
  }
}
