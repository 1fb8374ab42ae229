/**
 Who owns each disk sector. A slot stands for one file: slot 0 is the free map, slot 1 the directory,
 slot i + 2 the file of directory entry i. The invariant says that the marked sectors are exactly the
 owned ones and that no sector has two owners.
 */
module SectorOwnership {
  import opened Words
  import opened Bitmaps
  import opened Files

  const NUM_DIR_ENTRIES := 10
  const NUM_SLOTS := 12

  datatype Slot = Free | Used(key: seq<Byte>, hdrSector: int, header: Header)
  {
    /** The header sector and the data sectors. */
    ghost predicate Owns(s: int)
    {
      Used? && (s == hdrSector || s in header.Data())
    }

    ghost predicate WellFormed()
    {
      Used? ==> 0 <= hdrSector < NUM_SECTORS && header.WellFormed() && hdrSector !in header.Data()
    }

    function Sectors(): seq<int>
    {
      if Used? then [hdrSector] + header.Data() else []
    }
  }

  ghost predicate Owned(slots: seq<Slot>, s: int)
  {
    exists k :: 0 <= k < |slots| && slots[k].Owns(s)
  }

  ghost predicate Disjoint(slots: seq<Slot>)
  {
    forall j, k, s :: 0 <= j < k < |slots| && slots[j].Owns(s) ==> !slots[k].Owns(s)
  }

  ghost predicate DistinctNames(slots: seq<Slot>)
  {
    forall j, k :: 2 <= j < k < |slots| && slots[j].Used? && slots[k].Used? ==> slots[j].key != slots[k].key
  }

  ghost predicate Invariant(bits: seq<bool>, slots: seq<Slot>)
  {
    && |bits| == NUM_SECTORS && |slots| == NUM_SLOTS
    && slots[0].Used? && slots[0].hdrSector == 0
    && slots[1].Used? && slots[1].hdrSector == 1
    && (forall k :: 0 <= k < |slots| ==> slots[k].WellFormed())
    && Disjoint(slots)
    && DistinctNames(slots)
    && (forall s :: 0 <= s < NUM_SECTORS ==> (bits[s] <==> Owned(slots, s)))
  }

  lemma OwnsIsInSectors(slot: Slot, s: int)
    ensures slot.Owns(s) <==> s in slot.Sectors()
  {
    if slot.Used? && slot.Owns(s) {
      if s == slot.hdrSector {
        assert slot.Sectors()[0] == s;
      } else {
        var i :| 0 <= i < |slot.header.Data()| && slot.header.Data()[i] == s;
        assert slot.Sectors()[i + 1] == s;
      }
    }
  }

  lemma SlotSectorInRange(slot: Slot, s: int)
    requires slot.WellFormed() && slot.Owns(s)
    ensures 0 <= s < NUM_SECTORS
  {
    if s in slot.header.Data() {
      var i :| 0 <= i < |slot.header.Data()| && slot.header.Data()[i] == s;
      assert slot.header.dataSectors[i] == s;
    }
  }

  lemma MarkedIffOwned(bits: seq<bool>, slots: seq<Slot>, k: nat, s: nat)
    requires Invariant(bits, slots) && k < NUM_SLOTS && s < NUM_SECTORS
    ensures slots[k].Owns(s) ==> bits[s]
  {
    if slots[k].Owns(s) { assert Owned(slots, s); }
  }

  /** A new file on clear sectors, under a new name, keeps the invariant. */
  lemma AddKeepsInvariant(bits: seq<bool>, slots: seq<Slot>, i: nat, file: Slot)
    requires Invariant(bits, slots) && 2 <= i < NUM_SLOTS && slots[i].Free?
    requires file.Used? && file.WellFormed() && forall s :: file.Owns(s) ==> !bits[s]
    requires forall k :: 2 <= k < NUM_SLOTS && slots[k].Used? ==> slots[k].key != file.key
    ensures Invariant(WithAll(bits, file.Sectors(), true), slots[i := file])
  {
    var slots', bits' := slots[i := file], WithAll(bits, file.Sectors(), true);
    forall j, k, s | 0 <= j < k < NUM_SLOTS && slots'[j].Owns(s)
      ensures !slots'[k].Owns(s)
    {
      SlotSectorInRange(slots'[j], s);
      MarkedIffOwned(bits, slots, if j == i then k else j, s);
    }
    forall s | 0 <= s < NUM_SECTORS
      ensures bits'[s] <==> Owned(slots', s)
    {
      OwnsIsInSectors(file, s);
      if bits'[s] {
        if file.Owns(s) {
          assert slots'[i].Owns(s);
        } else {
          var k :| 0 <= k < NUM_SLOTS && slots[k].Owns(s);
          assert slots'[k].Owns(s);
        }
      }
      if Owned(slots', s) {
        var k :| 0 <= k < NUM_SLOTS && slots'[k].Owns(s);
        if k != i {
          assert slots[k].Owns(s);
          assert Owned(slots, s);
        }
      }
    }
  }

  /** Giving a file's sectors back keeps the invariant. */
  lemma RemoveKeepsInvariant(bits: seq<bool>, slots: seq<Slot>, i: nat)
    requires Invariant(bits, slots) && 2 <= i < NUM_SLOTS && slots[i].Used?
    ensures Invariant(WithAll(bits, slots[i].Sectors(), false), slots[i := Free])
  {
    var slots', bits' := slots[i := Free], WithAll(bits, slots[i].Sectors(), false);
    forall s | 0 <= s < NUM_SECTORS
      ensures bits'[s] <==> Owned(slots', s)
    {
      OwnsIsInSectors(slots[i], s);
      if Owned(slots', s) {
        var k :| 0 <= k < NUM_SLOTS && slots'[k].Owns(s);
        assert slots[k].Owns(s);
        assert !slots[i].Owns(s);
        assert Owned(slots, s);
      }
      if bits'[s] {
        var k :| 0 <= k < NUM_SLOTS && slots[k].Owns(s);
        assert slots'[k].Owns(s);
      }
    }
  }

  /** Marking a file's clear sectors and clearing them again gives the old map back. */
  lemma MarkThenClear(bits: seq<bool>, file: Slot)
    requires forall s :: 0 <= s < |bits| && s in file.Sectors() ==> !bits[s]
    ensures WithAll(WithAll(bits, file.Sectors(), true), file.Sectors(), false) == bits
  {
  }

  /** A sector owned by one file is owned by no other, header sectors included. */
  lemma OwnersApart(bits: seq<bool>, slots: seq<Slot>, j: nat, k: nat, s: int)
    requires Invariant(bits, slots) && j < NUM_SLOTS && k < NUM_SLOTS && j != k && slots[j].Owns(s)
    ensures !slots[k].Owns(s)
  {
  }
}
