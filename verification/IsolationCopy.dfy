/**
  copy_string_from_task among the processes of the system: what it relies on holds for each of them, and it
  keeps what holds for all.
*/
module IsolationCopy {
  import opened Words
  import opened HeapTable
  import opened PhysicalMemory
  import opened PageTable
  import opened Directory
  import opened Kheap
  import opened CopyString
  import opened Isolation
  import opened IsolationSteps

  /** The caller's buffer lies in no directory, table or chunk, and in no free block. */
  ghost predicate BufferSparesKernel(s: Sys, phys: Word, count: nat) {
    && phys + count <= 0x1_0000_0000
    && forall f: Frame | Overlaps(phys, count, f) ::
         && !(s.hb <= f < s.hb + |s.heap| && IsFree(s.heap[f - s.hb]))
         && forall w | Exists(s, w) && IsMeta(w) :: OwnedFrame(s, w) != f
  }

  /** Directory and tables of each process lie outside the free blocks. */
  lemma DirectoryIsHeld(s: Sys, o: Owners, p: nat)
    requires Consistent(s, o) && p in s.procs
    ensures DirectoryHeld(s.hb, s.heap, s.mem, s.procs[p].dir)
  {
    hide Consistent;
    ConsistentHeap(s, o);
    DirectoryValid(s, o, p);
    forall f: Frame | s.hb <= f < s.hb + |s.heap| && IsFree(s.heap[f - s.hb])
      ensures Outside(s.mem, s.procs[p].dir, f)
    {
      NotMeta(s, o, f, OwnDirectory(p));
      forall i: Index ensures TableFrame(s.mem, s.procs[p].dir, i) != f { NotMeta(s, o, f, OwnTable(p, i)); }
    }
  }

  lemma BufferIsApart(s: Sys, p: nat, phys: Word, count: nat)
    requires BufferSparesKernel(s, phys, count) && p in s.procs
    ensures BufferApart(s.hb, s.heap, s.mem, s.procs[p].dir, phys, count)
  {
    forall f: Frame | Overlaps(phys, count, f)
      ensures Outside(s.mem, s.procs[p].dir, f)
    {
      assert Exists(s, OwnDirectory(p)) && OwnedFrame(s, OwnDirectory(p)) == s.procs[p].dir;
      forall i: Index ensures TableFrame(s.mem, s.procs[p].dir, i) != f {
        assert Exists(s, OwnTable(p, i)) && OwnedFrame(s, OwnTable(p, i)) == TableFrame(s.mem, s.procs[p].dir, i);
      }
    }
  }

  /** Writes to such a buffer and to a free frame keep the invariant. */
  lemma CopyKeeps(s: Sys, o: Owners, m: Memory, phys: Word, count: nat, scratch: Frame)
    requires Consistent(s, o) && BufferSparesKernel(s, phys, count)
    requires s.hb <= scratch < s.hb + |s.heap| && IsFree(s.heap[scratch - s.hb])
    requires forall a: Word | !(phys <= a < phys + count) && a / PAGE_SIZE != scratch ::
               ByteAt(m, a) == ByteAt(s.mem, a)
    ensures Consistent(s.(mem := m), o)
  {
    hide Consistent, ByteAt;
    forall w | Exists(s, w) && IsMeta(w) ensures SameFrame(s.mem, m, OwnedFrame(s, w)) {
      NotMeta(s, o, scratch, w);
      var g := OwnedFrame(s, w);
      assert !Overlaps(phys, count, g);
      BytesSameFrame(s.mem, m, g);
    }
    MemKeeps(s, o, m);
  }

  /** copy_string_from_task for any process of the system: heap and invariant are as before. */
  method CopyStringOf(k: Machine, ghost s: Sys, ghost o: Owners, ghost p: nat, directory: Word, virt: Word, phys: Word,
                      max: nat)
    returns (res: int, ghost n: nat)
    requires k.Valid() && k.Hb() == s.hb && k.T() == s.heap && k.M() == s.mem
    requires Consistent(s, o) && p in s.procs && directory == PAGE_SIZE * s.procs[p].dir
    requires max > 0 && BufferSparesKernel(s, phys, max)
    modifies k.heap.table, k.mem
    ensures k.T() == s.heap && Consistent(s.(mem := k.M()), o)
    ensures res == if max >= PAGE_SIZE then -EINVARG else if CanFit(s.heap, 1) then 0 else -ENOMEM
  {
    hide Consistent, ByteAt, WellFormed, BufferSparesKernel, UserLen, UserByte, BufferByte;
    ConsistentHeap(s, o);
    DirectoryIsHeld(s, o, p);
    BufferIsApart(s, p, phys, max);
    res, n := CopyStringFromTask(k, directory, virt, phys, max);
    if res == 0 {
      FirstFitExact(s.heap, 1);
      CopyKeeps(s, o, k.M(), phys, max, Scratch(s.hb, s.heap));
    }
  }
}
