/**
 * Slot arbitration: which slot boots next, and the two operations that
 * change priorities and retry budgets ("protect" and "set active").
 */
module Arbitrator {
  import opened BootControl

  // ---------------------------------------------------------------------
  // Next-boot selection
  // ---------------------------------------------------------------------

  /** `k` is the slot to boot next: a populated slot whose priority no
      populated slot exceeds and which every slot before it falls short of.
      With no populated slot the answer is slot 0. */
  predicate IsNextSlot(c: BootloaderControl, k: nat)
    requires Supported(c)
  {
    if c.nbSlot == 0 then k == 0
    else
      && k < c.nbSlot
      && (forall i :: 0 <= i < c.nbSlot ==> c.slotInfo[i].priority <= c.slotInfo[k].priority)
      && (forall i :: 0 <= i < k ==> c.slotInfo[i].priority < c.slotInfo[k].priority)
  }

  /** The highest priority among the first `n` slots (0 when `n` is 0). */
  function TopPriority(s: seq<SlotMetadata>, n: nat): (p: nat)
    requires n <= |s|
    ensures forall i :: 0 <= i < n ==> s[i].priority <= p
    ensures n > 0 ==> exists i :: 0 <= i < n && s[i].priority == p
    decreases n
  {
    if n == 0 then 0
    else
      var p := TopPriority(s, n - 1);
      if s[n - 1].priority > p then s[n - 1].priority else p
  }

  /** The first of the first `n` slots with priority `p`, or `n` if there
      is none. */
  function FirstWithPriority(s: seq<SlotMetadata>, n: nat, p: nat): (k: nat)
    requires n <= |s|
    ensures k <= n
    ensures k < n ==> s[k].priority == p
    ensures forall i :: 0 <= i < k ==> s[i].priority != p
    decreases n
  {
    if n == 0 then 0
    else
      var k := FirstWithPriority(s, n - 1, p);
      if k < n - 1 then k
      else if s[n - 1].priority == p then n - 1
      else n
  }

  /** The reference definition of the next slot: the first slot that holds
      the top priority. */
  function NextSlot(c: BootloaderControl): (k: nat)
    requires Supported(c)
    ensures IsNextSlot(c, k)
  {
    if c.nbSlot == 0 then 0
    else FirstWithPriority(c.slotInfo, c.nbSlot, TopPriority(c.slotInfo, c.nbSlot))
  }

  /** The rule picks one slot only, so `NextSlot` is the only slot it
      allows. */
  lemma NextSlotUnique(c: BootloaderControl, k: nat)
    requires Supported(c)
    ensures IsNextSlot(c, k) <==> k == NextSlot(c)
  {
    var n := NextSlot(c);
    if IsNextSlot(c, k) && c.nbSlot > 0 {
      assert c.slotInfo[k].priority == c.slotInfo[n].priority;
    }
  }

  /** The scan of `dumpSlot`: start from slot 0 and move to a later slot
      only on a strictly greater priority. */
  method NextBootSlot(c: BootloaderControl) returns (next: nat)
    requires Supported(c)
    ensures IsNextSlot(c, next)
    ensures next == NextSlot(c)
  {
    next := 0;
    var i := 1;
    while i < c.nbSlot
      invariant 1 <= i <= SLOT_CAPACITY
      invariant next < i && (c.nbSlot > 0 ==> next < c.nbSlot) && (c.nbSlot == 0 ==> next == 0)
      invariant forall j :: 0 <= j < i && j < c.nbSlot ==> c.slotInfo[j].priority <= c.slotInfo[next].priority
      invariant forall j :: 0 <= j < next ==> c.slotInfo[j].priority < c.slotInfo[next].priority
    {
      if c.slotInfo[i].priority > c.slotInfo[next].priority {
        next := i;
      }
      i := i + 1;
    }
    NextSlotUnique(c, next);
  }

  // ---------------------------------------------------------------------
  // Protect
  // ---------------------------------------------------------------------

  /** `enterProtect`: the slot loses its confirmed flag and is given one
      retry fewer than the maximum. */
  function Protect(c: BootloaderControl, slot: int): (r: BootloaderControl)
    requires WellFormed(c) && SlotIndex(slot)
    ensures WellFormed(r) && (Supported(c) ==> Supported(r))
    ensures r.slotInfo[slot].triesRemaining == MAX_RETRY - 1
    ensures !r.slotInfo[slot].successfulBoot
    ensures r.slotInfo[slot].priority == c.slotInfo[slot].priority
    ensures r.slotInfo[slot].verityCorrupted == c.slotInfo[slot].verityCorrupted
    ensures r.slotInfo[slot].reserved == c.slotInfo[slot].reserved
    ensures |r.slotInfo| == |c.slotInfo|
    ensures forall i :: 0 <= i < |c.slotInfo| && i != slot ==> r.slotInfo[i] == c.slotInfo[i]
    ensures r.(slotInfo := c.slotInfo) == c
  {
    var s := c.slotInfo[slot];
    c.(slotInfo := c.slotInfo[slot := s.(triesRemaining := MAX_RETRY - 1, successfulBoot := false)])
  }

  /** Protect leaves every priority alone, so the next slot stays the
      same. */
  lemma ProtectKeepsNextSlot(c: BootloaderControl, slot: int)
    requires Supported(c) && SlotIndex(slot)
    ensures NextSlot(Protect(c, slot)) == NextSlot(c)
  {
    var r := Protect(c, slot);
    NextSlotUnique(r, NextSlot(c));
  }

  /** Protecting twice is protecting once. */
  lemma ProtectIdempotent(c: BootloaderControl, slot: int)
    requires WellFormed(c) && SlotIndex(slot)
    ensures Protect(Protect(c, slot), slot) == Protect(c, slot)
  {
  }

  // ---------------------------------------------------------------------
  // Set active
  // ---------------------------------------------------------------------

  /** A rival at the maximum priority drops to one below it. */
  function Demote(s: SlotMetadata): SlotMetadata
  {
    if s.priority >= MAX_PRI then s.(priority := MAX_PRI - 1) else s
  }

  /** `setActive`: the slot gets the maximum priority and the full retry
      budget; every other populated slot at or above the maximum is
      demoted. */
  function SetActive(c: BootloaderControl, slot: int): (r: BootloaderControl)
    requires Supported(c) && SlotIndex(slot)
    ensures Supported(r)
    ensures r.(slotInfo := c.slotInfo) == c
    ensures r.slotInfo[slot] == c.slotInfo[slot].(priority := MAX_PRI, triesRemaining := MAX_RETRY)
    ensures forall i :: 0 <= i < c.nbSlot && i != slot ==> r.slotInfo[i].priority < MAX_PRI
    ensures forall i :: 0 <= i < SLOT_CAPACITY && i != slot && c.slotInfo[i].priority < MAX_PRI ==>
              r.slotInfo[i] == c.slotInfo[i]
    ensures forall i :: 0 <= i < c.nbSlot && i != slot && c.slotInfo[i].priority == MAX_PRI ==>
              r.slotInfo[i] == c.slotInfo[i].(priority := MAX_PRI - 1)
    ensures forall i :: c.nbSlot <= i < SLOT_CAPACITY && i != slot ==> r.slotInfo[i] == c.slotInfo[i]
  {
    var slots := seq(SLOT_CAPACITY, i requires 0 <= i < SLOT_CAPACITY =>
      if i == slot then c.slotInfo[i].(priority := MAX_PRI, triesRemaining := MAX_RETRY)
      else if i < c.nbSlot then Demote(c.slotInfo[i])
      else c.slotInfo[i]);
    c.(slotInfo := slots)
  }

  /** After set-active, the activated slot is the only populated slot at the
      maximum priority. */
  lemma SetActiveUniqueTop(c: BootloaderControl, slot: int, i: nat)
    requires Supported(c) && SlotIndex(slot) && i < c.nbSlot
    ensures SetActive(c, slot).slotInfo[i].priority == MAX_PRI <==> i == slot
  {
  }

  /** After set-active, the activated slot is the one that boots next. */
  lemma SetActiveSelectsSlot(c: BootloaderControl, slot: int)
    requires ValidSlot(c, slot)
    ensures NextSlot(SetActive(c, slot)) == slot
  {
    var r := SetActive(c, slot);
    assert IsNextSlot(r, slot as nat);
    NextSlotUnique(r, slot as nat);
  }

  /** `setActive` does not check the slot index against `nb_slot`.
      Activating an unpopulated slot leaves every populated slot demoted
      as if a rival had been raised, so a populated slot at the maximum
      drops to one below it; the next slot stays a populated one, and the
      activated slot is not chosen. */
  lemma SetActiveUnpopulatedNotChosen(c: BootloaderControl, slot: int)
    requires Supported(c) && 0 < c.nbSlot <= slot < SLOT_CAPACITY
    ensures forall i :: 0 <= i < c.nbSlot ==> SetActive(c, slot).slotInfo[i] == Demote(c.slotInfo[i])
    ensures NextSlot(SetActive(c, slot)) < c.nbSlot
    ensures NextSlot(SetActive(c, slot)) != slot
  {
  }

  /** When no populated slot is at the maximum, activating an unpopulated
      slot changes no populated slot, so the same slot boots next. */
  lemma SetActiveUnpopulatedKeepsNextSlot(c: BootloaderControl, slot: int)
    requires Supported(c) && c.nbSlot <= slot < SLOT_CAPACITY
    requires forall i :: 0 <= i < c.nbSlot ==> c.slotInfo[i].priority < MAX_PRI
    ensures NextSlot(SetActive(c, slot)) == NextSlot(c)
  {
    var r := SetActive(c, slot);
    assert forall i :: 0 <= i < c.nbSlot ==> r.slotInfo[i] == c.slotInfo[i];
    assert IsNextSlot(r, NextSlot(c));
    NextSlotUnique(r, NextSlot(c));
  }

  /** Two populated slots with priorities 14 and 15: slot 1 boots next.
      Activating the unpopulated slot 3 demotes slot 1 to 14, the tie goes
      to the lower index, and slot 0 boots next: `-s` with an index past
      `nb_slot` can move the boot target between populated slots. */
  lemma SetActiveUnpopulatedMovesBoot(c: BootloaderControl)
    requires Supported(c) && c.nbSlot == 2
    requires Priorities(c) == [14, MAX_PRI]
    ensures NextSlot(c) == 1
    ensures Priorities(SetActive(c, 3)) == [14, 14]
    ensures NextSlot(SetActive(c, 3)) == 0
  {
    assert c.slotInfo[0].priority == 14 && c.slotInfo[1].priority == MAX_PRI;
    assert IsNextSlot(c, 1);
    NextSlotUnique(c, 1);
    var r := SetActive(c, 3);
    assert r.slotInfo[0].priority == 14 && r.slotInfo[1].priority == 14;
    assert Priorities(r) == [14, 14];
    assert IsNextSlot(r, 0);
    NextSlotUnique(r, 0);
  }

  /** Activating the same slot twice is activating it once. */
  lemma SetActiveIdempotent(c: BootloaderControl, slot: int)
    requires Supported(c) && SlotIndex(slot)
    ensures SetActive(SetActive(c, slot), slot) == SetActive(c, slot)
  {
    var r := SetActive(c, slot);
    var r2 := SetActive(r, slot);
    assert r2.slotInfo == r.slotInfo;
  }

  /** The loop of `setActive`, updating the slot array in place: the
      comparison is against the activated slot's new priority. */
  method SetActiveInPlace(c: BootloaderControl, slot: int) returns (r: BootloaderControl)
    requires Supported(c) && SlotIndex(slot)
    ensures r == SetActive(c, slot)
  {
    var slots := c.slotInfo;
    slots := slots[slot := slots[slot].(priority := MAX_PRI)];
    slots := slots[slot := slots[slot].(triesRemaining := MAX_RETRY)];
    var i := 0;
    while i < c.nbSlot
      invariant 0 <= i <= c.nbSlot
      invariant |slots| == SLOT_CAPACITY
      invariant slots[slot] == c.slotInfo[slot].(priority := MAX_PRI, triesRemaining := MAX_RETRY)
      invariant forall j :: 0 <= j < i && j != slot ==> slots[j] == Demote(c.slotInfo[j])
      invariant forall j :: i <= j < SLOT_CAPACITY && j != slot ==> slots[j] == c.slotInfo[j]
    {
      if i != slot && slots[i].priority >= slots[slot].priority {
        slots := slots[i := slots[i].(priority := MAX_PRI - 1)];
      }
      i := i + 1;
    }
    r := c.(slotInfo := slots);
    assert r.slotInfo == SetActive(c, slot).slotInfo;
  }

  // ---------------------------------------------------------------------
  // A worked example
  // ---------------------------------------------------------------------

  /** The priorities of the populated slots, in slot order. */
  function Priorities(c: BootloaderControl): (ps: seq<nat>)
    requires Supported(c)
    ensures |ps| == c.nbSlot
    ensures forall i :: 0 <= i < |ps| ==> ps[i] == c.slotInfo[i].priority
  {
    seq(c.nbSlot, i requires 0 <= i < c.nbSlot => c.slotInfo[i].priority)
  }

  /** Four slots with priorities 10, 10, 0, 0: slot 0 boots next, since the
      tie goes to the lower index.  Activating slot 1 raises it to 15 and
      leaves slot 0 at 10, which is below the maximum; slot 1 then boots
      next. */
  lemma ActivateSecondOfTiedPair(c: BootloaderControl)
    requires Supported(c) && c.nbSlot == 4
    requires Priorities(c) == [10, 10, 0, 0]
    ensures NextSlot(c) == 0
    ensures Priorities(SetActive(c, 1)) == [10, MAX_PRI, 0, 0]
    ensures NextSlot(SetActive(c, 1)) == 1
  {
    assert c.slotInfo[0].priority == 10 && c.slotInfo[1].priority == 10;
    assert IsNextSlot(c, 0);
    NextSlotUnique(c, 0);
    var r := SetActive(c, 1);
    assert Priorities(r) == [10, MAX_PRI, 0, 0];
    SetActiveSelectsSlot(c, 1);
  }
}
