/** The accumulator in memory: an index, and an array that moves when it grows. */
module ChangesTable {
  import opened Wrappers
  import opened Changes
  import opened ChangesLaws
  import opened ChangesReport

  class Table {
    var index: map<string, nat>
    var entries: array<Entry>
    var count: nat
    var hasIndex: bool
    var oldIndex: bool
    var overflow: bool
    var closed: bool

    ghost predicate Valid()
      reads this, entries
    {
      count <= entries.Length && AccOk(State())
    }

    ghost function State(): Acc
      reads this, entries
      requires count <= entries.Length
    {
      Acc(index, entries[..count], hasIndex, oldIndex, overflow, closed)
    }

    constructor ()
      ensures Valid() && State() == EMPTY && fresh(entries)
    {
      index, count, entries := map[], 0, new Entry[0];
      hasIndex, oldIndex, overflow, closed := false, false, false, false;
    }

    // ---- slots ----

    /** Room for one entry more; the entries move, their slots do not. */
    method Grow(growOk: bool) returns (ok: bool)
      requires Valid()
      modifies this`entries
      ensures Valid() && State() == old(State()) && (entries == old(entries) || fresh(entries))
      ensures ok == (old(count < entries.Length) || growOk)
      ensures ok ==> count < entries.Length
    {
      if count < entries.Length {
        return true;
      }
      if !growOk {
        return false;
      }
      var capacity := if entries.Length != 0 then entries.Length * 2 else 64;
      var moved := new Entry[capacity];
      for i := 0 to count
        invariant Valid() && State() == old(State()) && entries == old(entries)
        invariant moved[..i] == entries[..i]
      {
        moved[i] := entries[i];
      }
      assert moved[..count] == entries[..count];
      entries := moved;
      return true;
    }

    /** changes_slot. */
    method Slot(file: string, growOk: bool, nameOk: bool) returns (slot: int, isNew: bool)
      requires Valid()
      modifies this, entries
      ensures Valid() && (entries == old(entries) || fresh(entries))
      ensures isNew == (slot >= 0 && file !in old(index))
      ensures file in old(index) ==> slot == old(index)[file] && State() == old(State())
      ensures file !in old(index) ==>
                if nameOk && (growOk || old(count < entries.Length))
                then slot == old(count) && State() == Append(old(State()), Fresh(file))
                else slot == -1 && State() == old(State()).(overflow := true)
    {
      if file in index {
        return index[file], false;
      }
      var ok := Grow(growOk);
      if !ok || !nameOk {
        overflow := true;
        return -1, false;
      }
      slot, isNew := count, true;
      Add(file);
    }

    method Add(file: string)
      requires Valid() && count < entries.Length && file !in index
      modifies this`index, this`count, entries
      ensures Valid() && State() == Append(old(State()), Fresh(file))
    {
      AppendOk(State(), Fresh(file));
      ghost var before := entries[..count];
      entries[count] := Fresh(file);
      index := index[file := count];
      count := count + 1;
      assert entries[..count] == before + [Fresh(file)];
    }

    method Put(slot: nat, e: Entry)
      requires Valid() && slot < count && e.file == entries[slot].file && OneKind(e)
      modifies entries
      ensures Valid() && State() == Update(old(State()), slot, e)
    {
      UpdateOk(State(), slot, e);
      ghost var before := entries[..count];
      entries[slot] := e;
      assert entries[..count] == before[slot := e];
    }

    // ---- the engine's hooks, each under the lock ----

    /** The first half of a notify. With a new slot, the other half follows. */
    method NotifyBegin(file: string, rewritten: bool, growOk: bool, nameOk: bool, ghost thread: nat,
                       ghost pending: map<Notify, Pending>)
      returns (slot: int, isNew: bool)
      requires Valid()
      modifies this, entries
      ensures Valid() && (isNew ==> slot >= 0)
      ensures var mem := nameOk && (growOk || old(count < entries.Length));
              var n := Notify(file, thread);
              Sys(State(), if isNew then pending[n := Pending(slot, rewritten)] else pending)
              == BeginStep(Sys(old(State()), pending), Begin(n, rewritten, mem))
    {
      slot, isNew := -1, false;
      if !closed {
        slot, isNew := Slot(file, growOk, nameOk);
        if slot >= 0 && !isNew {
          var e := entries[slot];
          Put(slot, e.(rewritten := e.rewritten || rewritten));
        }
      }
    }

    /** The second half, with what it saw of the file in between. */
    method NotifyEnd(slot: nat, rewritten: bool, url: string, notUpdated: bool, prevSize: int,
                     md5: Option<Md5>, mem: bool, ghost n: Notify, ghost pending: map<Notify, Pending>)
      requires Valid() && n in pending && pending[n] == Pending(slot, rewritten)
      modifies this, entries
      ensures Valid()
      ensures Sys(State(), pending - {n})
           == EndStep(Sys(old(State()), pending), End(n, url, notUpdated, prevSize, md5, mem))
    {
      if !closed && slot < count {
        var e := Filled(entries[slot], rewritten, url, notUpdated, prevSize, md5, mem);
        FillKeeps(entries[slot], rewritten, End(n, url, notUpdated, prevSize, md5, mem));
        Put(slot, e);
        overflow := overflow || !mem;
      }
    }

    static lemma FillKeeps(e: Entry, rewritten: bool, ev: Event)
      requires ev.End? && OneKind(e)
      ensures Fill(e, rewritten, ev).file == e.file && OneKind(Fill(e, rewritten, ev))
    {
    }

    static method Filled(was: Entry, rewritten: bool, url: string, notUpdated: bool, prevSize: int, md5: Option<Md5>,
                         mem: bool) returns (e: Entry)
      ensures forall n :: e == Fill(was, rewritten, End(n, url, notUpdated, prevSize, md5, mem))
    {
      var hasPrev := prevSize >= 0 && rewritten && md5.Some?;
      e := was.(url := if mem then url else "", rewritten := was.rewritten || rewritten, notUpdated := notUpdated,
                prevSize := prevSize, onDisk := prevSize >= 0);
      if hasPrev && e.newDigest == None {
        e := e.(prevDigest := Some(Digest(Disk, md5.value)));
      }
    }

    method Page(file: string, newMd5: Md5, prevMd5: Option<Md5>)
      requires Valid()
      modifies this, entries
      ensures Valid() && State() == NoteStep(old(State()), Html(file, newMd5, prevMd5))
    {
      if !closed && file in index {
        var slot := index[file];
        var e := entries[slot].(newDigest := Some(Digest(Payload, newMd5)), prevDigest := None);
        if prevMd5.Some? {
          e := e.(prevDigest := Some(Digest(Payload, prevMd5.value)));
        }
        Put(slot, e);
      }
    }

    method Purged(file: string, kept: bool, growOk: bool, nameOk: bool)
      requires Valid()
      modifies this, entries
      ensures Valid()
      ensures var mem := nameOk && (growOk || old(count < entries.Length));
              State() == NoteStep(old(State()), Dropped(file, kept, mem))
    {
      if !closed {
        var slot, isNew := Slot(file, growOk, nameOk);
        if isNew {
          var e := entries[slot].(listedPrev := true);
          Put(slot, if kept then e else e.(bucket := Gone));
        }
      }
    }

    method Listed(file: string)
      requires Valid()
      modifies this, entries
      ensures Valid() && State() == NoteStep(old(State()), Previous(file))
    {
      if !closed {
        hasIndex, oldIndex := true, true;
        if file in index {
          Put(index[file], entries[index[file]].(listedPrev := true));
        }
      }
    }

    // ---- the report ----

    /** changes_resolve: every entry in its final bucket. */
    method ResolveHere(disk: string -> OnDisk)
      requires Valid()
      modifies entries
      ensures Valid() && State() == Resolved(old(State()), disk)
    {
      ResolveOk(State(), disk);
      ResolveEntries(disk);
    }

    method ResolveEntries(disk: string -> OnDisk)
      requires count <= entries.Length
      modifies entries
      ensures entries[..count] == ResolveAll(old(entries[..count]), oldIndex, disk)
    {
      ghost var was := entries[..count];
      for i := 0 to count
        invariant forall k :: 0 <= k < i ==> entries[k] == Resolve(was[k], oldIndex, disk(was[k].file))
        invariant forall k :: i <= k < count ==> entries[k] == was[k]
      {
        entries[i] := ResolvedOne(entries[i], oldIndex, disk(entries[i].file));
      }
    }

    static method ResolvedOne(was: Entry, oldIndex: bool, disk: OnDisk) returns (e: Entry)
      ensures e == Resolve(was, oldIndex, disk)
    {
      e := was;
      if e.bucket == Gone {
        return;
      }
      e := e.(existed := if oldIndex then e.listedPrev else e.onDisk, size := disk.size);
      var equal: Option<bool> := None;
      if e.rewritten && e.existed {
        if e.newDigest == None && e.size >= 0 && e.prevSize >= 0 && e.size != e.prevSize {
          equal := Some(false);  // different lengths: no need to hash
        } else if e.prevDigest.Some? {
          if e.newDigest.Some? {
            equal := Some(e.newDigest.value.md5 == e.prevDigest.value.md5);
          } else if disk.md5.Some? {
            equal := Some(disk.md5.value == e.prevDigest.value.md5);
          }
        }
      }
      e := e.(bucket := Classify(e.rewritten, e.existed, e.notUpdated, equal));
    }

    method CountHere() returns (counts: map<Bucket, nat>)
      requires Valid()
      ensures counts.Keys == {New, Changed, Unchanged, Gone}
      ensures forall b: Bucket :: b in counts ==> counts[b] == Count(State().entries, b)
    {
      counts := map[New := 0, Changed := 0, Unchanged := 0, Gone := 0];
      assert entries[..0] == [];
      for i := 0 to count
        invariant counts.Keys == {New, Changed, Unchanged, Gone}
        invariant forall b: Bucket :: b in counts ==> counts[b] == Count(entries[..i], b)
      {
        assert entries[..i + 1][..i] == entries[..i];
        var b := entries[i].bucket;
        assert b == New || b == Changed || b == Unchanged || b == Gone;
        counts := counts[b := counts[b] + 1];
      }
    }

    /** The final report: its counts, by bucket, and nothing recorded after it. */
    method CloseHere(disk: string -> OnDisk) returns (counts: map<Bucket, nat>)
      requires Valid()
      modifies this`closed, entries
      ensures Valid() && State() == Step(Sys(old(State()), map[]), Close(disk)).acc
      ensures counts.Keys == (if old(closed) then {} else {New, Changed, Unchanged, Gone})
      ensures forall b: Bucket :: b in counts ==> counts[b] == Count(State().entries, b)
    {
      counts := map[];
      if !closed {
        counts := ResolveAndCount(disk);
        closed := true;
      }
    }

    /** What a report does but for closing. */
    method ResolveAndCount(disk: string -> OnDisk) returns (counts: map<Bucket, nat>)
      requires Valid()
      modifies entries
      ensures Valid() && State() == Resolved(old(State()), disk) && AccOk(State().(closed := true))
      ensures counts.Keys == {New, Changed, Unchanged, Gone}
      ensures forall b: Bucket :: b in counts ==> counts[b] == Count(State().entries, b)
    {
      ResolveHere(disk);
      counts := CountHere();
      ClosingOk(State(), State());
    }
  }
}
