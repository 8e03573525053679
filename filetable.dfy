/** The `fileTable` abstract data type of kern/proc/filetable.c: MAX_FILES
    handle slots filled by a circular allocator that starts at the `last`
    cursor, with reference-counted removal, get/set, copy and destroy.

    The header declares MAX_FILES + 1 slots; the last one is never
    initialised or reached by any operation, so the model has MAX_FILES.
    The table lock is a no-op. `vfs_close` on a record is reported by the
    operation; `kfree` of a record sets its `freed` flag. */
module FileTables {
  import opened Kern
  import opened Procs

  /** `struct fileTable`. */
  class FileTable {
    var handles: array<OpenFile?>
    var last: int

    ghost predicate Valid()
      reads this
    {
      handles.Length == MAX_FILES && 0 <= last < MAX_FILES
    }

    /** `create_fileTable`: every slot empty and the cursor at 0. */
    constructor ()
      ensures Valid() && fresh(handles)
      ensures last == 0
      ensures forall i :: 0 <= i < MAX_FILES ==> handles[i] == null
    {
      handles := new OpenFile?[MAX_FILES](_ => null);
      last := 0;
    }
  }

  /** The record slot `fd` of `t` holds, if any, as a frame. */
  ghost function SlotRecord(t: array<OpenFile?>, fd: int): set<OpenFile>
    requires 0 <= fd < t.Length
    reads t
  {
    if t[fd] == null then {} else {t[fd]}
  }

  /** The slot `j` circular steps after `last`. */
  function Circ(last: nat, j: nat): (s: nat)
    requires last < MAX_FILES
    ensures s < MAX_FILES
  {
    (last + j) % MAX_FILES
  }

  /** Step 0 is the cursor itself. */
  lemma CircStart(last: nat)
    requires last < MAX_FILES
    ensures Circ(last, 0) == last
  {
  }

  /** One more step moves to the next slot, wrapping from MAX_FILES - 1 to
      0: the cursor update of `add_file`. */
  lemma CircStep(last: nat, j: nat)
    requires last < MAX_FILES
    ensures Circ(last, j + 1) == if Circ(last, j) + 1 == MAX_FILES then 0 else Circ(last, j) + 1
  {
    var q := (last + j) / MAX_FILES;
    assert last + j == q * MAX_FILES + Circ(last, j);
    if Circ(last, j) + 1 == MAX_FILES {
      assert last + j + 1 == (q + 1) * MAX_FILES;
    } else {
      assert last + j + 1 == q * MAX_FILES + (Circ(last, j) + 1);
    }
  }

  /** How many circular steps from `last` (starting at step `k`) reach the
      first empty slot of `t`, if any does. */
  function ScanFrom(t: seq<OpenFile?>, last: nat, k: nat): (d: Option<nat>)
    requires |t| == MAX_FILES && last < MAX_FILES
    decreases MAX_FILES - k
    ensures d.Some? ==> k <= d.value < MAX_FILES
  {
    if k >= MAX_FILES then None
    else if t[Circ(last, k)] == null then Some(k)
    else ScanFrom(t, last, k + 1)
  }

  /** The scan stops at an empty slot after passing only occupied ones,
      and finds nothing only when every slot it visits is occupied. */
  lemma {:induction false} ScanFromSpec(t: seq<OpenFile?>, last: nat, k: nat)
    requires |t| == MAX_FILES && last < MAX_FILES
    decreases MAX_FILES - k
    ensures var d := ScanFrom(t, last, k);
            && (d.Some? ==> t[Circ(last, d.value)] == null)
            && (d.Some? ==> forall j :: k <= j < d.value ==> t[Circ(last, j)] != null)
            && (d.None? ==> forall j :: k <= j < MAX_FILES ==> t[Circ(last, j)] != null)
  {
    if k < MAX_FILES && t[Circ(last, k)] != null {
      ScanFromSpec(t, last, k + 1);
    }
  }

  /** A table with an empty slot is always found to have one by the scan,
      whatever the cursor. */
  lemma {:induction false} ScanFindsFreeSlot(t: seq<OpenFile?>, last: nat, free: nat)
    requires |t| == MAX_FILES && last < MAX_FILES && free < MAX_FILES && t[free] == null
    ensures ScanFrom(t, last, 0).Some?
  {
    ScanFromSpec(t, last, 0);
    var j := if free >= last then free - last else free + MAX_FILES - last;
    assert Circ(last, j) == free by {
      if free >= last {
        assert last + j == free;
      } else {
        assert last + j == free + MAX_FILES;
      }
    }
  }

  /** On a table whose first `n` slots are the occupied ones, with the
      cursor on the last of them, the scan stops at slot `n`. */
  lemma {:induction false} ScanAfterPrefix(t: seq<OpenFile?>, n: nat)
    requires |t| == MAX_FILES && n < MAX_FILES && OccupiedPrefix(t, n)
    ensures var last := if n == 0 then 0 else n - 1;
            ScanFrom(t, last, 0).Some? && Circ(last, ScanFrom(t, last, 0).value) == n
  {
    if n == 0 {
      assert t[Circ(0, 0)] == null;
    } else {
      assert t[Circ(n - 1, 0)] != null;
      assert t[Circ(n - 1, 1)] == null;
    }
  }

  /** `add_file` with `init` set. The source loops for ever on a full
      table, so a free slot is required. */
  method AddFile(ft: FileTable, file: OpenFile) returns (idx: int)
    requires ft.Valid()
    requires exists i :: 0 <= i < MAX_FILES && ft.handles[i] == null
    // of the record, only its reference count changes
    modifies ft, ft.handles, file`refCount
    ensures ft.Valid() && ft.handles == old(ft.handles)
    ensures ScanFrom(old(ft.handles[..]), old(ft.last), 0).Some?
    ensures idx == Circ(old(ft.last), ScanFrom(old(ft.handles[..]), old(ft.last), 0).value)
    ensures idx == ft.last
    ensures old(ft.handles[idx]) == null
    ensures ft.handles[..] == old(ft.handles[..])[idx := file]
    ensures file.refCount == IncU32(old(file.refCount))
    ensures file.vn == old(file.vn) && file.offset == old(file.offset) && file.freed == old(file.freed)
  {
    ghost var t := ft.handles[..];
    ghost var start := ft.last;
    ghost var free :| 0 <= free < MAX_FILES && ft.handles[free] == null;
    ScanFindsFreeSlot(t, start, free);
    ScanFromSpec(t, start, 0);
    ghost var d := ScanFrom(t, start, 0).value;

    var pos := 0;
    var last := ft.last;
    CircStart(start);
    while ft.handles[last] != null
      invariant 0 <= pos <= d
      invariant last == Circ(start, pos)
      modifies {}
      decreases d - pos
    {
      CircStep(start, pos);
      last := last + 1;
      if last == MAX_FILES {
        last := 0; // circular strategy
      }
      pos := pos + 1;
      // the source stores EMFILE through a NULL pointer once pos reaches
      // MAX_FILES; with a free slot the scan stops before that
    }
    ft.last := last;
    ft.handles[last] := file;
    file.refCount := IncU32(file.refCount);
    return ft.last;
  }

  /** `remove_from_fileTable`. The slot is emptied and the count dropped
      by one (wrapping at 0); on reaching 0 the vnode is closed and the
      record freed. */
  method RemoveFromFileTable(ft: FileTable, fd: int) returns (r: int, closed: bool)
    requires ft.Valid() && 0 <= fd < MAX_FILES
    // the record must not have been freed by an earlier removal
    requires ft.handles[fd] != null ==> !ft.handles[fd].freed
    // of the record, only its reference count and its freed mark change
    modifies ft, ft.handles, SlotRecord(ft.handles, fd)`refCount, SlotRecord(ft.handles, fd)`freed
    ensures ft.Valid() && ft.handles == old(ft.handles)
    ensures old(ft.handles[fd]) == null ==>
              r == EBADF && !closed && ft.last == old(ft.last) && ft.handles[..] == old(ft.handles[..])
    ensures old(ft.handles[fd]) != null ==>
              && r == 0
              && ft.handles[..] == old(ft.handles[..])[fd := null]
              && ft.last == (if fd < old(ft.last) then fd else old(ft.last))
              && old(ft.handles[fd]).refCount == DecU32(old(ft.handles[fd].refCount))
              && (closed <==> old(ft.handles[fd].refCount) == 1)
              && old(ft.handles[fd]).freed == closed
              && old(ft.handles[fd]).vn == old(ft.handles[fd].vn)
              && old(ft.handles[fd]).offset == old(ft.handles[fd].offset)
  {
    var file := ft.handles[fd];
    if file != null {
      file.refCount := DecU32(file.refCount);
      closed := file.refCount == 0;
      if closed {
        // vfs_close(file->vn); kfree(file)
        file.freed := true;
      }
      ft.handles[fd] := null;
      if fd < ft.last {
        ft.last := fd;
      }
    } else {
      return EBADF, false;
    }
    return 0, closed;
  }

  /** `get_file_at_index`. The branch that first calls `init_fileTable`
      on a table whose slot 0 is empty is not modelled. */
  method GetFileAtIndex(ft: FileTable, fd: int) returns (file: OpenFile?)
    requires ft.Valid() && 0 <= fd < MAX_FILES
    requires ft.handles[0] != null
    ensures file == ft.handles[fd]
  {
    file := ft.handles[fd];
  }

  /** `set_file_at_index`: overwrites slot `fd` and nothing else; no
      reference count changes. Same restriction as `GetFileAtIndex`. */
  method SetFileAtIndex(ft: FileTable, fd: int, file: OpenFile?) returns (r: int)
    requires ft.Valid() && 0 <= fd < MAX_FILES
    requires ft.handles[0] != null
    modifies ft.handles
    ensures r == 0
    ensures ft.handles[..] == old(ft.handles[..])[fd := file]
  {
    ft.handles[fd] := file;
    return 0;
  }

  /** `x` advanced by `k` on an `unsigned int`. */
  function AddU32(x: u32, k: nat): u32
  {
    ((x as int + k) % U32) as u32
  }

  /** Two increments of a count `k` steps along are `k + 2` steps along. */
  lemma IncTwice(x: u32, k: nat)
    ensures IncU32(IncU32(AddU32(x, k))) == AddU32(x, k + 2)
  {
    var a := (x as int + k) % U32;
    var q := (x as int + k) / U32;
    assert x as int + k == q * U32 + a;
    if a + 2 < U32 {
      assert x as int + k + 2 == q * U32 + (a + 2);
    } else if a + 2 == U32 {
      assert x as int + k + 2 == (q + 1) * U32;
    } else {
      assert x as int + k + 2 == (q + 1) * U32 + 1;
    }
  }

  /** The occupied slots of `t` are exactly the first `n`. */
  ghost predicate OccupiedPrefix(t: seq<OpenFile?>, n: nat)
  {
    n <= |t| && (forall i :: 0 <= i < n ==> t[i] != null) && (forall i :: n <= i < |t| ==> t[i] == null)
  }

  /** Some occupied slot of `t` follows an empty one. */
  ghost predicate HasHole(t: seq<OpenFile?>)
  {
    exists i, j :: 0 <= i < j < |t| && t[i] == null && t[j] != null
  }

  /** The first `n` of the `i` slots scanned so far are the occupied ones. */
  ghost predicate ScannedPrefix(src: seq<OpenFile?>, i: nat, n: nat)
  {
    && n <= i <= |src|
    && (forall j :: 0 <= j < n ==> src[j] != null)
    && (forall j :: n <= j < i ==> src[j] == null)
  }

  /** `t` holds the first `n` slots of `src` and is empty after them. */
  ghost predicate CopiedPrefix(t: seq<OpenFile?>, src: seq<OpenFile?>, n: nat)
  {
    |t| == |src| && n <= |src| && forall j :: 0 <= j < |t| ==> t[j] == if j < n then src[j] else null
  }

  /** Where `copy_fileTable` dereferences NULL, scanning from slot `i`
      with `n` records copied so far: the first occupied slot found while
      fewer records than slots have been copied. */
  function CopyFault(src: seq<OpenFile?>, i: nat, n: nat): (f: Option<nat>)
    requires n <= i <= |src|
    decreases |src| - i
    ensures f.Some? ==> i <= f.value < |src| && src[f.value] != null
  {
    if i == |src| then None
    else if src[i] == null then CopyFault(src, i + 1, n)
    else if n < i then Some(i)
    else CopyFault(src, i + 1, n + 1)
  }

  /** The copy faults exactly when the table has a hole, and then at an
      occupied slot that follows an empty one. */
  lemma {:induction false} CopyFaultSpec(src: seq<OpenFile?>, i: nat, n: nat)
    requires ScannedPrefix(src, i, n)
    decreases |src| - i
    ensures CopyFault(src, i, n).None? <==> !HasHole(src)
    ensures CopyFault(src, i, n).Some? ==>
              exists j :: 0 <= j < CopyFault(src, i, n).value && src[j] == null
  {
    if i == |src| {
      NoHole(src, n);
    } else if src[i] == null {
      CopyFaultSpec(src, i + 1, n);
    } else if n < i {
      HoleFound(src, n, i);
      assert src[n] == null;
    } else {
      CopyFaultSpec(src, i + 1, n + 1);
    }
  }

  /** An occupied slot after an empty one is a hole. */
  lemma HoleFound(t: seq<OpenFile?>, h: nat, i: nat)
    requires h < i < |t| && t[h] == null && t[i] != null
    ensures HasHole(t)
  {
  }

  /** A table whose occupied slots are a prefix has no hole. */
  lemma NoHole(t: seq<OpenFile?>, n: nat)
    requires OccupiedPrefix(t, n)
    ensures !HasHole(t)
  {
  }

  /** The body of the `copy_fileTable` loop for an occupied source slot
      `i`: `add_file(copyto, file)`, then `copyto->handles[i]->ref_count++`.
      On a destination whose occupied slots are its first `n`, the record
      lands in slot `n`; when `n < i` slot `i` is NULL and `ok` is false
      where the source dereferences it. */
  method CopySlot(to: FileTable, file: OpenFile, i: nat, ghost n: nat,
                  ghost src: seq<OpenFile?>, ghost orig: map<OpenFile, u32>) returns (ok: bool)
    requires CopyState(to, src, orig, i, n) && i < |src| && src[i] == file
    requires forall o: OpenFile :: o in src ==> o in orig && o.refCount == AddU32(orig[o], 2 * Count(src, n, o))
    modifies to, to.handles, file`refCount
    ensures to.handles == old(to.handles)
    ensures ok <==> i == n
    ensures ok ==> CopyState(to, src, orig, i + 1, n + 1)
    ensures ok ==> forall o: OpenFile :: o in src ==> o in orig && o.refCount == AddU32(orig[o], 2 * Count(src, n + 1, o))
  {
    ghost var t := to.handles[..];
    assert OccupiedPrefix(t, n);
    ScanAfterPrefix(t, n);
    ghost var before := map r: OpenFile | r in src :: r.refCount;
    var idx := AddFile(to, file);
    assert idx == n;
    if to.handles[i] == null {
      return false;
    }
    to.handles[i].refCount := IncU32(to.handles[i].refCount);
    ghost var after := map r: OpenFile | r in src :: r.refCount;
    RefsStep(src, orig, n, file, before, after);
    CopiedStep(t, to.handles[..], src, n);
    return true;
  }

  /** Storing `src[n]` in slot `n` of a copy of the first `n` slots gives
      a copy of the first `n + 1`. */
  lemma CopiedStep(t: seq<OpenFile?>, t': seq<OpenFile?>, src: seq<OpenFile?>, n: nat)
    requires CopiedPrefix(t, src, n) && n < |src| && t' == t[n := src[n]]
    ensures CopiedPrefix(t', src, n + 1)
  {
  }

  /** What the copy loop keeps after scanning `i` source slots, `n` of
      them occupied: the destination holds those `n` records in its first
      slots with the cursor on the last one, and each has gained two
      references per copy. */
  ghost predicate CopyState(to: FileTable, src: seq<OpenFile?>, orig: map<OpenFile, u32>, i: nat, n: nat)
    reads to, to.handles
  {
    && to.Valid() && |src| == MAX_FILES
    && ScannedPrefix(src, i, n) && CopiedPrefix(to.handles[..], src, n)
    && to.last == (if n == 0 then 0 else n - 1)
  }

  /** An empty source slot is skipped. */
  lemma SkipEmpty(to: FileTable, src: seq<OpenFile?>, orig: map<OpenFile, u32>, i: nat, n: nat)
    requires CopyState(to, src, orig, i, n) && i < |src| && src[i] == null
    ensures CopyState(to, src, orig, i + 1, n)
  {
  }

  /** `copy_fileTable` into a freshly created table. Each record is added
      with `add_file`, which fills the destination from slot 0 upwards,
      and then `copyto->handles[i]->ref_count++` is applied at the source
      index `i`. When an occupied source slot follows an empty one that
      destination slot is still NULL and the source dereferences it:
      `fault` is that index and the copy stops there. Otherwise the
      destination equals the source, cursor included, and every record
      gains two references per slot that holds it. */
  method CopyFileTable(from: FileTable, to: FileTable) returns (fault: Option<nat>)
    requires from.Valid() && to.Valid() && from != to && from.handles != to.handles
    requires to.last == 0 && forall i :: 0 <= i < MAX_FILES ==> to.handles[i] == null
    // of the records, only the reference counts change
    modifies to, to.handles, (set o: OpenFile | o in from.handles[..])`refCount
    ensures fault == CopyFault(old(from.handles[..]), 0, 0)
    ensures fault.None? ==>
              && to.Valid() && to.handles[..] == old(from.handles[..]) && to.last == from.last
              && forall o: OpenFile :: o in old(from.handles[..]) ==>
                   o.refCount == AddU32(old(o.refCount), 2 * multiset(old(from.handles[..]))[o])
  {
    ghost var src := from.handles[..];
    ghost var orig: map<OpenFile, u32> := map o: OpenFile | o in src :: o.refCount;
    fault := CopyAll(from.handles, to, src, orig);
    if fault.None? {
      to.last := from.last;
    }
  }

  /** The loop of `copy_fileTable` over the source slots. */
  method CopyAll(handles: array<OpenFile?>, to: FileTable, ghost src: seq<OpenFile?>,
                 ghost orig: map<OpenFile, u32>) returns (fault: Option<nat>)
    requires handles[..] == src && handles != to.handles
    requires CopyState(to, src, orig, 0, 0)
    requires forall o: OpenFile :: o in src ==> o in orig && o.refCount == orig[o]
    modifies to, to.handles, orig.Keys`refCount
    ensures to.handles == old(to.handles)
    ensures fault == CopyFault(src, 0, 0)
    ensures fault.None? ==>
              && to.Valid() && to.handles[..] == src
              && forall o: OpenFile :: o in src ==> o in orig && o.refCount == AddU32(orig[o], 2 * multiset(src)[o])
  {
    var i := 0;
    ghost var n := 0;
    while i < MAX_FILES
      invariant to.handles == old(to.handles)
      invariant CopyState(to, src, orig, i, n)
      invariant forall o: OpenFile :: o in src ==> o in orig && o.refCount == AddU32(orig[o], 2 * Count(src, n, o))
      invariant CopyFault(src, i, n) == CopyFault(src, 0, 0)
    {
      if handles[i] != null {
        var ok := CopySlot(to, handles[i], i, n, src, orig);
        if !ok {
          // the source dereferences NULL here
          return Some(i);
        }
        n := n + 1;
      } else {
        SkipEmpty(to, src, orig, i, n);
      }
      i := i + 1;
    }
    CopyComplete(src, orig, n, to.handles[..]);
    return None;
  }

  lemma CountStep(before: u32, after: u32, orig: u32, c: nat, hit: bool)
    requires before == AddU32(orig, 2 * c)
    requires after == if hit then IncU32(IncU32(before)) else before
    ensures after == AddU32(orig, 2 * (c + if hit then 1 else 0))
  {
    if hit {
      IncTwice(orig, 2 * c);
    }
  }

  /** One copied slot holding `src[n]` adds two references to that record
      and leaves the others alone. */
  lemma RefsStep(src: seq<OpenFile?>, orig: map<OpenFile, u32>, n: nat, o: OpenFile,
                 before: map<OpenFile, u32>, after: map<OpenFile, u32>)
    requires n < |src| && src[n] == o
    requires forall r: OpenFile :: r in src ==> r in orig && r in before && r in after
    requires forall r: OpenFile :: r in src ==> before[r] == AddU32(orig[r], 2 * Count(src, n, r))
    requires after[o] == IncU32(IncU32(before[o]))
    requires forall r: OpenFile :: r in src && r != o ==> after[r] == before[r]
    ensures forall r: OpenFile :: r in src ==> after[r] == AddU32(orig[r], 2 * Count(src, n + 1, r))
  {
    forall r: OpenFile | r in src
      ensures after[r] == AddU32(orig[r], 2 * Count(src, n + 1, r))
    {
      CountStep(before[r], after[r], orig[r], Count(src, n, r), r == o);
    }
  }

  /** A scan that reached the end with the first `n` slots occupied has
      copied the whole table: an identical destination and two references
      per slot holding each record. */
  lemma CopyComplete(src: seq<OpenFile?>, orig: map<OpenFile, u32>, n: nat, t: seq<OpenFile?>)
    requires ScannedPrefix(src, |src|, n) && CopiedPrefix(t, src, n)
    requires forall o: OpenFile :: o in src ==> o in orig && o.refCount == AddU32(orig[o], 2 * Count(src, n, o))
    ensures t == src
    ensures forall o: OpenFile :: o in src ==> o in orig && o.refCount == AddU32(orig[o], 2 * multiset(src)[o])
  {
    forall o: OpenFile ensures Count(src, n, o) == multiset(src)[o] {
      CountNulls(src, n, |src|, o);
      CountIsMultiplicity(src, |src|, o);
      assert src[..|src|] == src;
    }
  }

  /** How many of the first `n` slots of `s` hold `o`. */
  function Count(s: seq<OpenFile?>, n: nat, o: OpenFile): (c: nat)
    requires n <= |s|
    ensures c <= n
  {
    if n == 0 then 0 else Count(s, n - 1, o) + if s[n - 1] == o then 1 else 0
  }

  /** `Count` is the multiplicity of `o` in the prefix. */
  lemma {:induction false} CountIsMultiplicity(s: seq<OpenFile?>, n: nat, o: OpenFile)
    requires n <= |s|
    ensures Count(s, n, o) == multiset(s[..n])[o]
  {
    if n > 0 {
      CountIsMultiplicity(s, n - 1, o);
      assert s[..n] == s[..n - 1] + [s[n - 1]];
    }
  }

  /** Empty slots add nothing to the count. */
  lemma {:induction false} CountNulls(s: seq<OpenFile?>, n: nat, m: nat, o: OpenFile)
    requires n <= m <= |s| && forall j :: n <= j < m ==> s[j] == null
    ensures Count(s, m, o) == Count(s, n, o)
  {
    if m > n {
      CountNulls(s, n, m - 1, o);
    }
  }

  /** `destroy_fileTable`: `remove_from_fileTable` on every index. A record
      is freed by the removal that takes its count to 0, so its count must
      not be smaller than the number of slots holding it (or be 0, which
      wraps). Every slot ends empty, every record loses one reference per
      slot that held it, and exactly the records whose count that takes to
      0 are closed and freed. */
  method DestroyFileTable(ft: FileTable) returns (r: int)
    requires ft.Valid()
    requires forall o: OpenFile :: o in ft.handles[..] ==>
               !o.freed && (o.refCount == 0 || o.refCount as int >= multiset(ft.handles[..])[o])
    // of the records, only the reference counts and freed marks change
    modifies ft, ft.handles, (set o: OpenFile | o in ft.handles[..])`refCount
    modifies (set o: OpenFile | o in ft.handles[..])`freed
    ensures r == 0 && ft.handles == old(ft.handles)
    ensures forall i :: 0 <= i < MAX_FILES ==> ft.handles[i] == null
    ensures forall o: OpenFile :: o in old(ft.handles[..]) ==>
              && o.refCount as int == (old(o.refCount) as int - multiset(old(ft.handles[..]))[o]) % U32
              && (o.freed <==> old(o.refCount) as int == multiset(old(ft.handles[..]))[o])
  {
    var handles := ft.handles;
    ghost var src := handles[..];
    ghost var orig: map<OpenFile, u32> := map o: OpenFile | o in src :: o.refCount;
    CountsBounded(src, orig);
    DropAll(ft, src, orig);
    DroppedAll(src, orig);
    return 0;
  }

  /** The loop of `destroy_fileTable`: `remove_from_fileTable` on every
      index in turn. */
  method DropAll(ft: FileTable, ghost src: seq<OpenFile?>, ghost orig: map<OpenFile, u32>)
    requires DestroyState(ft, src, orig, 0)
    requires forall o: OpenFile :: o in orig ==> orig[o] == 0 || orig[o] as int >= Count(src, |src|, o)
    modifies ft, ft.handles, orig.Keys`refCount, orig.Keys`freed
    ensures ft.handles == old(ft.handles) && DestroyState(ft, src, orig, MAX_FILES)
  {
    var i := 0;
    while i < MAX_FILES
      invariant ft.handles == old(ft.handles) && DestroyState(ft, src, orig, i)
    {
      DropSlot(ft, i, src, orig);
      i := i + 1;
    }
  }

  /** What the destroy loop keeps after `i` removals: the first `i` slots
      are empty and the rest still hold the original records. */
  ghost predicate DestroyState(ft: FileTable, src: seq<OpenFile?>, orig: map<OpenFile, u32>, i: nat)
    reads ft, ft.handles, orig.Keys
  {
    && ft.Valid() && |src| == MAX_FILES && i <= MAX_FILES
    && (forall j :: 0 <= j < |src| && src[j] != null ==> src[j] in orig)
    && Dropped(src, orig, i)
    && Cleared(ft.handles[..], src, i)
  }

  /** The first `i` slots of `t` are empty and the rest are those of
      `src`. */
  ghost predicate Cleared(t: seq<OpenFile?>, src: seq<OpenFile?>, i: nat)
  {
    && |t| == |src| && i <= |t|
    && (forall j :: 0 <= j < i ==> t[j] == null)
    && (forall j :: i <= j < |t| ==> t[j] == src[j])
  }

  /** Emptying slot `i` clears one more slot. */
  lemma ClearedStep(t: seq<OpenFile?>, src: seq<OpenFile?>, i: nat)
    requires Cleared(t, src, i) && i < |t|
    ensures Cleared(t[i := null], src, i + 1)
  {
  }

  /** The body of the `destroy_fileTable` loop: `remove_from_fileTable`
      on slot `i`. */
  method DropSlot(ft: FileTable, i: nat, ghost src: seq<OpenFile?>, ghost orig: map<OpenFile, u32>)
    requires i < MAX_FILES && DestroyState(ft, src, orig, i)
    requires forall o: OpenFile :: o in orig ==> orig[o] == 0 || orig[o] as int >= Count(src, |src|, o)
    modifies ft, ft.handles, SlotRecord(ft.handles, i)`refCount, SlotRecord(ft.handles, i)`freed
    ensures ft.handles == old(ft.handles)
    ensures DestroyState(ft, src, orig, i + 1)
  {
    ghost var o := ft.handles[i];
    assert o == src[i];
    if o != null {
      CountMono(src, i + 1, |src|, o);
    }
    ghost var refs, freed := CountsIn(orig), FreedIn(orig);
    DroppedSnapshot(src, orig, i, refs, freed);
    ghost var t := ft.handles[..];
    RemoveCounted(ft, i, orig);
    ghost var refs', freed' := CountsIn(orig), FreedIn(orig);
    DropStep(src, orig, i, refs, freed, refs', freed');
    DroppedSnapshot(src, orig, i + 1, refs', freed');
    ClearedStep(t, src, i);
  }

  /** The counts of the records of `orig`. */
  ghost function CountsIn(orig: map<OpenFile, u32>): map<OpenFile, u32>
    reads orig.Keys
  {
    map r: OpenFile | r in orig :: r.refCount
  }

  /** The freed marks of the records of `orig`. */
  ghost function FreedIn(orig: map<OpenFile, u32>): map<OpenFile, bool>
    reads orig.Keys
  {
    map r: OpenFile | r in orig :: r.freed
  }

  /** How a removal of the record `x` changes the snapshots of the
      records of `orig`: `x` loses a reference and is freed when that was
      its last one; every other record is untouched. */
  ghost predicate RemovedFrom(orig: map<OpenFile, u32>, x: OpenFile?,
                              refs: map<OpenFile, u32>, freed: map<OpenFile, bool>,
                              refs': map<OpenFile, u32>, freed': map<OpenFile, bool>)
  {
    && (forall o: OpenFile :: o in orig ==> o in refs && o in freed && o in refs' && o in freed')
    && (x != null && x in orig ==> refs'[x] == DecU32(refs[x]) && freed'[x] == (refs[x] == 1))
    && (forall o: OpenFile :: o in orig && o != x ==> refs'[o] == refs[o] && freed'[o] == freed[o])
  }

  /** `remove_from_fileTable` on slot `i`, seen through the snapshots of
      the records of `orig`. */
  method RemoveCounted(ft: FileTable, i: nat, ghost orig: map<OpenFile, u32>)
    requires ft.Valid() && i < MAX_FILES
    requires ft.handles[i] != null ==> !ft.handles[i].freed
    modifies ft, ft.handles, SlotRecord(ft.handles, i)`refCount, SlotRecord(ft.handles, i)`freed
    ensures ft.Valid() && ft.handles == old(ft.handles)
    ensures ft.handles[..] == old(ft.handles[..])[i := null]
    ensures RemovedFrom(orig, old(ft.handles[i]), old(CountsIn(orig)), old(FreedIn(orig)), CountsIn(orig), FreedIn(orig))
  {
    var _, _ := RemoveFromFileTable(ft, i);
  }

  /** The precondition of `DestroyFileTable` on counts, with `Count`. */
  lemma CountsBounded(src: seq<OpenFile?>, orig: map<OpenFile, u32>)
    requires forall o: OpenFile :: o in src ==> o in orig && (orig[o] == 0 || orig[o] as int >= multiset(src)[o])
    requires forall o: OpenFile :: o in orig ==> o in src
    ensures forall o: OpenFile :: o in orig ==> orig[o] == 0 || orig[o] as int >= Count(src, |src|, o)
  {
    forall o: OpenFile | o in orig ensures orig[o] == 0 || orig[o] as int >= Count(src, |src|, o) {
      CountIsMultiplicity(src, |src|, o);
      assert src[..|src|] == src;
    }
  }

  /** After the last removal each record has lost one reference per slot
      that held it. */
  lemma DroppedAll(src: seq<OpenFile?>, orig: map<OpenFile, u32>)
    requires Dropped(src, orig, |src|)
    requires forall o: OpenFile :: o in src ==> o in orig
    ensures forall o: OpenFile :: o in src ==>
              && o.refCount as int == (orig[o] as int - multiset(src)[o]) % U32
              && (o.freed <==> orig[o] as int == multiset(src)[o])
  {
    forall o: OpenFile | o in src ensures Count(src, |src|, o) == multiset(src)[o] > 0 {
      CountIsMultiplicity(src, |src|, o);
      assert src[..|src|] == src;
    }
  }

  /** After removing the first `i` slots each record has lost one
      reference per slot and is freed once its count reached 0. */
  ghost predicate Dropped(src: seq<OpenFile?>, orig: map<OpenFile, u32>, i: nat)
    requires i <= |src|
    reads orig.Keys
  {
    forall o: OpenFile :: o in orig ==>
      && o in orig
      && o.refCount as int == (orig[o] as int - Count(src, i, o)) % U32
      && (o.freed <==> orig[o] as int == Count(src, i, o) > 0)
  }

  /** `Dropped` over snapshots `refs` and `freed` of the counts and
      freed marks of the records. */
  ghost predicate DroppedIn(src: seq<OpenFile?>, orig: map<OpenFile, u32>, i: nat,
                            refs: map<OpenFile, u32>, freed: map<OpenFile, bool>)
    requires i <= |src|
  {
    forall o: OpenFile :: o in orig ==>
      && o in refs && o in freed
      && refs[o] as int == (orig[o] as int - Count(src, i, o)) % U32
      && (freed[o] <==> orig[o] as int == Count(src, i, o) > 0)
  }

  /** Snapshots taken while `Dropped` holds satisfy `DroppedIn`, and
      conversely. */
  lemma DroppedSnapshot(src: seq<OpenFile?>, orig: map<OpenFile, u32>, i: nat,
                        refs: map<OpenFile, u32>, freed: map<OpenFile, bool>)
    requires i <= |src|
    requires refs == map r: OpenFile | r in orig :: r.refCount
    requires freed == map r: OpenFile | r in orig :: r.freed
    ensures Dropped(src, orig, i) <==> DroppedIn(src, orig, i, refs, freed)
  {
  }

  /** Removing slot `i` drops one reference from its record, frees it when
      that was the last one and touches no other record: from the
      snapshots `refs`/`freed` before to `refs'`/`freed'` after, the
      destroy invariant moves one slot on. */
  lemma DropStep(src: seq<OpenFile?>, orig: map<OpenFile, u32>, i: nat,
                 refs: map<OpenFile, u32>, freed: map<OpenFile, bool>,
                 refs': map<OpenFile, u32>, freed': map<OpenFile, bool>)
    requires i < |src| == MAX_FILES
    requires DroppedIn(src, orig, i, refs, freed)
    requires src[i] != null ==> src[i] in orig
    requires forall o: OpenFile :: o in orig ==> orig[o] == 0 || orig[o] as int >= Count(src, |src|, o)
    requires RemovedFrom(orig, src[i], refs, freed, refs', freed')
    ensures DroppedIn(src, orig, i + 1, refs', freed')
  {
    forall o: OpenFile | o in orig
      ensures refs'[o] as int == (orig[o] as int - Count(src, i + 1, o)) % U32
      ensures freed'[o] <==> orig[o] as int == Count(src, i + 1, o) > 0
    {
      var c := Count(src, i, o);
      if o == src[i] {
        CountMono(src, i + 1, |src|, o);
        assert Count(src, i + 1, o) == c + 1;
        DecStep(orig[o], c);
      }
    }
  }

  /** One more decrement of a count already `c` below `x`. */
  lemma DecStep(x: u32, c: nat)
    requires c < U32 - 1 && (x == 0 || x as int >= c + 1)
    ensures DecU32(((x as int - c) % U32) as u32) as int == (x as int - (c + 1)) % U32
    ensures (((x as int - c) % U32) == 1) <==> x as int == c + 1
  {
    if x as int >= c {
      assert (x as int - c) % U32 == x as int - c;
    } else {
      assert (x as int - c) % U32 == x as int - c + U32;
    }
  }

  /** Counting over a longer prefix never counts less. */
  lemma {:induction false} CountMono(s: seq<OpenFile?>, n: nat, m: nat, o: OpenFile)
    requires n <= m <= |s|
    ensures Count(s, n, o) <= Count(s, m, o)
  {
    if m > n {
      CountMono(s, n, m - 1, o);
    }
  }
}
