/**
 The link's anti-replay window: a 64-bit sliding bitmap that behaves as the
 set of every number it ever accepted.
 */
module Replay {
  import opened Bytes
  import opened Bits

  const WINDOW: int := 64

  /**
   The rule, on the set `accepted` of all numbers accepted so far: `seq` is
   new, and no accepted number is 64 or more above it.
   */
  ghost predicate Fresh(accepted: set<u32>, seqNo: u32) {
    seqNo !in accepted && forall s | s in accepted :: s - seqNo < WINDOW
  }

  /** The rule in the words of RFC 4303 section 3.4.3, with the highest number named. */
  lemma FreshByHighest(accepted: set<u32>, highest: u32, seqNo: u32)
    requires highest in accepted && forall s | s in accepted :: s <= highest
    ensures Fresh(accepted, seqNo) <==>
              seqNo > highest || (seqNo !in accepted && highest - seqNo < 64)
  {
  }

  // ---------------------------------------------------------------------
  // Whole runs of the rule
  // ---------------------------------------------------------------------

  /** The set and the verdicts after offering `offers` in order. */
  ghost function Offer(accepted: set<u32>, offers: seq<u32>): (set<u32>, seq<bool>)
    decreases |offers|
  {
    if offers == [] then (accepted, [])
    else
      var ok := Fresh(accepted, offers[0]);
      var (after, verdicts) := Offer(if ok then accepted + {offers[0]} else accepted, offers[1..]);
      (after, [ok] + verdicts)
  }

  /** Over any run: nothing already accepted, and nothing twice. */
  lemma {:induction false} NeverTwice(accepted: set<u32>, offers: seq<u32>)
    ensures var (after, verdicts) := Offer(accepted, offers);
      && |verdicts| == |offers|
      && accepted <= after
      && (forall i | 0 <= i < |offers| && verdicts[i] :: offers[i] !in accepted && offers[i] in after)
      && (forall i, j | 0 <= i < j < |offers| && verdicts[i] && verdicts[j] :: offers[i] != offers[j])
    decreases |offers|
  {
    if offers != [] {
      var ok := Fresh(accepted, offers[0]);
      NeverTwice(if ok then accepted + {offers[0]} else accepted, offers[1..]);
    }
  }

  /** `s` was offered and accepted before place `k`. */
  ghost predicate Taken(offers: seq<u32>, verdicts: seq<bool>, k: nat, s: u32)
    requires k <= |offers| == |verdicts|
  {
    exists i | 0 <= i < k :: verdicts[i] && offers[i] == s
  }

  /**
   Over any run, each verdict is the rule on exactly what was accepted before
   it; so a number refused was accepted earlier, or lies 64 or more below one
   that was.
   */
  lemma {:induction false} VerdictByThePast(accepted: set<u32>, offers: seq<u32>, k: nat)
    requires k < |offers|
    ensures var (before, verdicts) := (Offer(accepted, offers[..k]).0, Offer(accepted, offers).1);
      && |verdicts| == |offers|
      && (forall s: u32 :: s in before <==> s in accepted || Taken(offers, verdicts, k, s))
      && (verdicts[k] <==> Fresh(before, offers[k]))
      && (!verdicts[k] ==> exists s | s in before :: s == offers[k] || s - offers[k] >= WINDOW)
    decreases |offers|
  {
    NeverTwice(accepted, offers);
    if k > 0 {
      var ok := Fresh(accepted, offers[0]);
      var next := if ok then accepted + {offers[0]} else accepted;
      var (verdicts, later) := (Offer(accepted, offers).1, Offer(next, offers[1..]).1);
      assert offers[..k][0] == offers[0] && offers[..k][1..] == offers[1..][..k - 1];
      VerdictByThePast(next, offers[1..], k - 1);
      forall s: u32
        ensures Taken(offers, verdicts, k, s) <==> (ok && offers[0] == s) || Taken(offers[1..], later, k - 1, s)
      {
        TakenFirstOrLater(offers, verdicts, later, k, s);
      }
    }
  }

  lemma TakenFirstOrLater(offers: seq<u32>, verdicts: seq<bool>, later: seq<bool>, k: nat, s: u32)
    requires 0 < k <= |offers| == |verdicts| && verdicts == [verdicts[0]] + later
    ensures Taken(offers, verdicts, k, s) <==> (verdicts[0] && offers[0] == s) || Taken(offers[1..], later, k - 1, s)
  {
    if Taken(offers[1..], later, k - 1, s) {
      var i :| 0 <= i < k - 1 && later[i] && offers[1..][i] == s;
      assert verdicts[i + 1] && offers[i + 1] == s;
    }
    if i :| 0 <= i < k && verdicts[i] && offers[i] == s {
      assert i > 0 ==> later[i - 1] && offers[1..][i - 1] == s;
    }
  }

  // ---------------------------------------------------------------------
  // The bitmap
  // ---------------------------------------------------------------------

  /** Bit `i` of the bitmap says whether `highest - i` was accepted. */
  ghost predicate Represents(bitmap: u64, highest: u32, accepted: set<u32>) {
    forall i: nat | i < 64 :: Bit(bitmap, i) <==> highest - i in accepted
  }

  /** A new highest number: the bitmap moves up by the difference, or empties, and bit 0 is set. */
  function Moved(bitmap: u64, shift: nat): u64 {
    var moved := if shift >= WINDOW then 0 else ShiftLeft(bitmap, shift);
    Pow2Of64();
    OrStaysBelow(moved, 1, 64);
    Or(moved, 1)
  }

  /** A number `back` below the highest: one more bit is set. */
  function Marked(bitmap: u64, back: nat): u64 {
    Pow2Of64();
    OrStaysBelow(bitmap, ShiftLeft(1, back), 64);
    Or(bitmap, ShiftLeft(1, back))
  }

  lemma BitOfOne(i: nat)
    ensures Bit(1, i) <==> i == 0
  {
    if i > 0 {
      ZeroBit(i - 1);
    }
  }

  lemma MovedBit(bitmap: u64, shift: nat, i: nat)
    requires shift > 0 && i < 64
    ensures Bit(Moved(bitmap, shift), i) <==> i == 0 || (i >= shift && Bit(bitmap, i - shift))
  {
    BitOfOne(i);
    if shift >= WINDOW {
      OrBit(0, 1, i);
      ZeroBit(i);
    } else {
      OrBit(ShiftLeft(bitmap, shift), 1, i);
      ShiftLeftBit(bitmap, shift, i);
    }
  }

  lemma MarkedBit(bitmap: u64, back: nat, i: nat)
    requires back < 64 && i < 64
    ensures Bit(Marked(bitmap, back), i) <==> i == back || Bit(bitmap, i)
  {
    OrBit(bitmap, ShiftLeft(1, back), i);
    ShiftLeftBit(1, back, i);
    if i >= back {
      BitOfOne(i - back);
    }
  }

  lemma Advance(bitmap: u64, highest: u32, accepted: set<u32>, seqNo: u32)
    requires Represents(bitmap, highest, accepted) && seqNo > highest
    requires forall s | s in accepted :: s <= highest
    ensures Represents(Moved(bitmap, seqNo - highest), seqNo, accepted + {seqNo})
  {
    var after := Moved(bitmap, seqNo - highest);
    forall i: nat | i < 64 ensures Bit(after, i) <==> seqNo - i in accepted + {seqNo} {
      MovedBit(bitmap, seqNo - highest, i);
      AdvanceBit(bitmap, highest, accepted, seqNo, i);
    }
  }

  lemma AdvanceBit(bitmap: u64, highest: u32, accepted: set<u32>, seqNo: u32, i: nat)
    requires Represents(bitmap, highest, accepted) && seqNo > highest && i < 64
    requires forall s | s in accepted :: s <= highest
    ensures seqNo - i in accepted + {seqNo} <==>
              i == 0 || (i >= seqNo - highest && Bit(bitmap, i - (seqNo - highest)))
  {
    var shift := seqNo - highest;
    if i >= shift {
      assert highest - (i - shift) == seqNo - i;
    }
  }

  lemma Mark(bitmap: u64, highest: u32, accepted: set<u32>, seqNo: u32)
    requires Represents(bitmap, highest, accepted) && seqNo <= highest && highest - seqNo < WINDOW
    ensures Represents(Marked(bitmap, highest - seqNo), highest, accepted + {seqNo})
  {
    var after := Marked(bitmap, highest - seqNo);
    forall i: nat | i < 64 ensures Bit(after, i) <==> highest - i in accepted + {seqNo} {
      MarkedBit(bitmap, highest - seqNo, i);
      MarkBit(bitmap, highest, accepted, seqNo, i);
    }
  }

  lemma MarkBit(bitmap: u64, highest: u32, accepted: set<u32>, seqNo: u32, i: nat)
    requires Represents(bitmap, highest, accepted) && i < 64
    ensures highest - i in accepted + {seqNo} <==> i == highest - seqNo || Bit(bitmap, i)
  {
  }

  /** Reading one bit answers whether an in-window number was accepted. */
  lemma ReadBit(bitmap: u64, highest: u32, accepted: set<u32>, seqNo: u32)
    requires Represents(bitmap, highest, accepted) && seqNo <= highest && highest - seqNo < WINDOW
    ensures (ShiftRight(bitmap, highest - seqNo) % 2 == 0) == (seqNo !in accepted)
    ensures (ShiftRight(bitmap, highest - seqNo) % 2 == 1) == (seqNo in accepted)
  {
    BitByShift(bitmap, highest - seqNo);
    assert Bit(bitmap, highest - seqNo) <==> highest - (highest - seqNo) in accepted;
  }

  lemma First(seqNo: u32)
    ensures Represents(1, seqNo, {seqNo})
  {
    forall i: nat | i < 64 ensures Bit(1, i) <==> seqNo - i in {seqNo} {
      BitOfOne(i);
    }
  }

  // ---------------------------------------------------------------------
  // The window
  // ---------------------------------------------------------------------

  class ReplayWindow {
    var highest: u32
    var bitmap: u64
    var primed: bool
    /** Every number `Accept` ever returned true for. */
    ghost var accepted: set<u32>

    ghost predicate Valid()
      reads this
    {
      && (!primed ==> accepted == {})
      && (primed ==>
            && highest in accepted
            && (forall s | s in accepted :: s <= highest)
            && Represents(bitmap, highest, accepted))
    }

    constructor ()
      ensures Valid() && accepted == {}
    {
      highest, bitmap, primed := 0, 0, false;
      accepted := {};
    }

    predicate WouldAccept(seqNo: u32)
      requires Valid()
      reads this
      ensures WouldAccept(seqNo) <==> Fresh(accepted, seqNo)
    {
      if !primed then true
      else if seqNo > highest then true
      else
        var back := highest - seqNo;
        if back < WINDOW then
          ReadBit(bitmap, highest, accepted, seqNo);
          ShiftRight(bitmap, back) % 2 == 0
        else false
    }

    method Accept(seqNo: u32) returns (ok: bool)
      requires Valid()
      modifies this
      ensures Valid()
      ensures ok <==> Fresh(old(accepted), seqNo)
      ensures ok == old(WouldAccept(seqNo))
      ensures accepted == if ok then old(accepted) + {seqNo} else old(accepted)
      ensures !ok ==> highest == old(highest) && bitmap == old(bitmap) && primed == old(primed)
    {
      if !primed {
        primed, highest, bitmap := true, seqNo, 1;
        accepted := {seqNo};
        First(seqNo);
        return true;
      }
      if seqNo > highest {
        var shift := seqNo - highest;
        Advance(bitmap, highest, accepted, seqNo);
        bitmap := Moved(bitmap, shift);
        highest := seqNo;
        accepted := accepted + {seqNo};
        return true;
      }
      var back := highest - seqNo;
      if back < WINDOW {
        ReadBit(bitmap, highest, accepted, seqNo);
      }
      if back >= WINDOW || ShiftRight(bitmap, back) % 2 == 1 {
        return false;
      }
      Mark(bitmap, highest, accepted, seqNo);
      bitmap := Marked(bitmap, back);
      accepted := accepted + {seqNo};
      ok := true;
    }
  }
}
