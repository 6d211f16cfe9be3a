/** The character driver: the engine's global structures as the fields of one
    object, its entry points as methods, and the data store that the state
    passes through across a live update. */
module Driver {
  import opened Automaton
  import opened Status
  import opened Control
  import opened Persistence

  /** Size of the staging buffer through which bytes move to and from the caller. */
  const BUF_SIZE: nat := 4

  /** What a read or a write answers: the byte count, or the failed copy's code. */
  datatype IoResult = Done(count: nat) | Failed(code: ErrorCode)

  /** The lifecycle events that start the driver. */
  datatype InitKind = Fresh | LiveUpdate | Restart

  /** A read or write of `size` bytes copies chunks at the offsets 0,
      BUF_SIZE, 2 * BUF_SIZE, ... below `size`; it fails when the injected
      fault names one of them. */
  predicate ChunkCopyFails(f: Fault, size: nat)
  {
    f.FailAt? && f.offset < size && f.offset % BUF_SIZE == 0
  }

  /** The kernel's copy from the caller: `count` bytes at offset `offset` of
      the caller's grant `src` land at the start of `dst`, or nothing moves. */
  method CopyIn(dst: array<Byte>, src: seq<Byte>, offset: nat, count: nat, f: Fault) returns (rc: int)
    requires count <= dst.Length
    modifies dst
    ensures rc == CopyRc(|src|, offset, count, f)
    ensures rc == OK ==> dst[..count] == src[offset..offset + count] && dst[count..] == old(dst[count..])
    ensures rc != OK ==> dst[..] == old(dst[..])
  {
    rc := CopyRc(|src|, offset, count, f);
    if rc == OK {
      forall i | 0 <= i < count {
        dst[i] := src[offset + i];
      }
    }
  }

  /** The fold over the first `done + chunk` bytes continues the fold over
      the first `done` bytes with the next chunk. */
  lemma RunChunk(t: Table, s: Byte, src: seq<Byte>, done: nat, chunk: nat)
    requires done + chunk <= |src|
    ensures Run(t, s, src[..done + chunk]) == Run(t, Run(t, s, src[..done]), src[done..done + chunk])
  {
    assert src[..done + chunk] == src[..done] + src[done..done + chunk];
    RunConcat(t, s, src[..done], src[done..done + chunk]);
  }

  /** The data store server's memory entries. */
  class DataStore {
    var entries: Store

    constructor ()
      ensures entries == map[]
    {
      entries := map[];
    }

    /** Publish with overwrite. */
    method Publish(key: string, data: seq<Byte>, inj: Option<ErrorCode>) returns (rc: int)
      modifies this
      ensures rc == PublishRc(inj)
      ensures entries == if rc == OK then old(entries)[key := data] else old(entries)
    {
      rc := PublishRc(inj);
      if rc == OK {
        entries := entries[key := data];
      }
    }

    /** Retrieve into a buffer of `len` bytes: at most `len` bytes of the blob. */
    method Retrieve(key: string, len: nat, inj: Option<ErrorCode>) returns (rc: int, data: seq<Byte>)
      ensures rc == LookupRc(entries, key, inj)
      ensures rc == OK ==> data == entries[key][..Min(len, |entries[key]|)]
    {
      rc := LookupRc(entries, key, inj);
      data := [];
      if rc == OK {
        data := entries[key][..Min(len, |entries[key]|)];
      }
    }

    method Delete(key: string, inj: Option<ErrorCode>) returns (rc: int)
      modifies this
      ensures rc == LookupRc(old(entries), key, inj)
      ensures entries == if rc == OK then old(entries) - {key} else old(entries)
    {
      rc := LookupRc(entries, key, inj);
      if rc == OK {
        entries := entries - {key};
      }
    }
  }

  class Device {
    var currentState: Byte
    const accepting: array<Byte>
    /** Row-major: the successor of `(s, a)` is `transition[Index(s, a)]`. */
    const transition: array<Byte>
    const buffer: array<Byte>

    ghost predicate Valid()
    {
      accepting.Length == STATES && transition.Length == TABLE_SIZE && buffer.Length == BUF_SIZE
    }

    ghost function TableValue(): Table
      requires Valid()
      reads transition
    {
      transition[..]
    }

    /** The engine's three structures, as a value. */
    ghost function Snap(): (s: Snapshot)
      requires Valid()
      reads this, accepting, transition
      ensures s.WellFormed() && s.current == currentState && s.table == TableValue()
    {
      Snapshot(currentState, accepting[..], transition[..])
    }

    /** Process load: the globals start out zero. */
    constructor ()
      ensures Valid() && Snap() == Zero()
      ensures fresh(accepting) && fresh(transition) && fresh(buffer)
    {
      currentState := 0;
      accepting := new Byte[STATES](_ => 0);
      transition := new Byte[TABLE_SIZE](_ => 0);
      buffer := new Byte[BUF_SIZE](_ => 0);
      new;
      assert accepting[..] == Zero().accepting;
      assert transition[..] == Zero().table;
    }

    /** Poll: deliver `size` copies of the verdict on the current state,
        through the staging buffer, a chunk at a time. Nothing but the
        staging buffer changes. */
    method Read(size: nat, f: Fault) returns (r: IoResult, delivered: seq<Byte>)
      requires Valid()
      modifies buffer
      ensures unchanged(this, accepting, transition)
      ensures ChunkCopyFails(f, size) ==>
        r == Failed(f.code) && delivered == Fill(f.offset, Verdict(Snap()))
      ensures !ChunkCopyFails(f, size) ==>
        r == Done(size) && delivered == Fill(size, Verdict(Snap()))
    {
      var v := if accepting[currentState] == 1 then ACCEPT_SENTINEL else REJECT_SENTINEL;
      var n := Min(BUF_SIZE, size);
      forall i | 0 <= i < n {
        buffer[i] := v;
      }
      var bytesRead := 0;
      delivered := [];
      while bytesRead < size
        invariant bytesRead <= size
        invariant bytesRead % BUF_SIZE == 0 || bytesRead == size
        invariant !(f.FailAt? && f.offset % BUF_SIZE == 0 && f.offset < bytesRead)
        invariant delivered == Fill(bytesRead, v)
        invariant forall i :: 0 <= i < n ==> buffer[i] == v
      {
        var chunk := Min(BUF_SIZE, size - bytesRead);
        // The copy of `buffer[..chunk]` to the caller at offset `bytesRead`.
        var ret := CopyRc(size, bytesRead, chunk, f);
        if ret != OK {
          r := Failed(ret);
          return;
        }
        delivered := delivered + buffer[..chunk];
        bytesRead := bytesRead + chunk;
      }
      r := Done(size);
    }

    /** Feed: move the caller's bytes in through the staging buffer, a chunk
        at a time, taking one transition per byte. A failed copy stops the
        call; the transitions already taken stand. */
    method Write(src: seq<Byte>, f: Fault) returns (r: IoResult)
      requires Valid()
      modifies this, buffer
      ensures unchanged(accepting, transition)
      ensures ChunkCopyFails(f, |src|) ==>
        r == Failed(f.code) && currentState == Run(TableValue(), old(currentState), src[..f.offset])
      ensures !ChunkCopyFails(f, |src|) ==>
        r == Done(|src|) && currentState == Run(TableValue(), old(currentState), src)
    {
      var bytesWritten := 0;
      while bytesWritten < |src|
        invariant bytesWritten <= |src|
        invariant bytesWritten % BUF_SIZE == 0 || bytesWritten == |src|
        invariant !(f.FailAt? && f.offset % BUF_SIZE == 0 && f.offset < bytesWritten)
        invariant currentState == Run(TableValue(), old(currentState), src[..bytesWritten])
      {
        var chunk := Min(BUF_SIZE, |src| - bytesWritten);
        var ret := CopyIn(buffer, src, bytesWritten, chunk, f);
        if ret != OK {
          r := Failed(ret);
          return;
        }
        RunChunk(TableValue(), old(currentState), src, bytesWritten, chunk);
        Transitions(chunk);
        bytesWritten := bytesWritten + chunk;
      }
      assert src[..bytesWritten] == src;
      r := Done(|src|);
    }

    /** The transitions on the first `chunk` bytes of the staging buffer, one
        per byte, from the current state. */
    method Transitions(chunk: nat)
      requires Valid() && chunk <= BUF_SIZE
      modifies this
      ensures unchanged(accepting, transition, buffer)
      ensures currentState == Run(TableValue(), old(currentState), buffer[..chunk])
    {
      for i := 0 to chunk
        invariant currentState == Run(TableValue(), old(currentState), buffer[..i])
      {
        assert buffer[..i + 1] == buffer[..i] + [buffer[i]];
        RunSnoc(TableValue(), old(currentState), buffer[..i], buffer[i]);
        currentState := transition[Index(currentState, buffer[i])];
      }
    }

    /** Control request `req` with the caller's payload grant `payload`. */
    method Ioctl(req: Request, payload: seq<Byte>, f: Fault) returns (rc: int)
      requires Valid()
      modifies this, accepting, transition
      ensures Reply(Snap(), rc) == Apply(old(Snap()), req, payload, f)
    {
      var buf := new Byte[3];
      match req
      case Reset =>
        currentState := 0;
        rc := OK;
      case AddTransition =>
        rc := CopyIn(buf, payload, 0, 3, f);
        if rc == OK {
          transition[Index(buf[0], buf[1])] := buf[2];
          currentState := 0;
        }
      case Accept =>
        rc := CopyIn(buf, payload, 0, 1, f);
        if rc == OK {
          accepting[buf[0]] := 1;
          currentState := 0;
        }
      case Reject =>
        rc := CopyIn(buf, payload, 0, 1, f);
        if rc == OK {
          accepting[buf[0]] := 0;
          currentState := 0;
        }
      case Unsupported(_) =>
        rc := ENOTTY;
    }

    /** The live-update save callback. */
    method SaveState(ds: DataStore, f: StoreFault) returns (rc: int)
      requires Valid()
      modifies ds
      ensures SaveOutcome(ds.entries, rc) == Save(old(ds.entries), Snap(), f)
    {
      rc := ds.Publish(KEY_CURRENT, [currentState], Injected(f, 0));
      if rc != OK {
        return;
      }
      rc := ds.Publish(KEY_ACCEPTING, accepting[..], Injected(f, 1));
      if rc != OK {
        return;
      }
      rc := ds.Publish(KEY_TRANSITION, transition[..], Injected(f, 2));
    }

    /** The store's copy of a retrieved blob into the accepting flags. */
    method LoadAccepting(data: seq<Byte>)
      requires Valid() && |data| <= STATES
      modifies accepting
      ensures accepting[..] == Overlay(old(accepting[..]), data)
    {
      forall i | 0 <= i < |data| {
        accepting[i] := data[i];
      }
    }

    /** The store's copy of a retrieved blob into the transition table. */
    method LoadTable(data: seq<Byte>)
      requires Valid() && |data| <= TABLE_SIZE
      modifies transition
      ensures transition[..] == Overlay(old(transition[..]), data)
    {
      forall i | 0 <= i < |data| {
        transition[i] := data[i];
      }
    }

    /** The restore routine: retrieve each structure and delete its entry. */
    method RestoreState(ds: DataStore, f: StoreFault) returns (rc: int)
      requires Valid()
      modifies this, accepting, transition, ds
      ensures RestoreOutcome(Snap(), ds.entries, rc) == Restore(old(ds.entries), old(Snap()), f)
    {
      var data: seq<Byte>;
      rc, data := ds.Retrieve(KEY_CURRENT, 1, Injected(f, 0));
      if rc != OK {
        return;
      }
      if |data| > 0 {
        currentState := data[0];
      }
      rc := ds.Delete(KEY_CURRENT, Injected(f, 1));
      if rc != OK {
        return;
      }

      rc, data := ds.Retrieve(KEY_ACCEPTING, STATES, Injected(f, 2));
      if rc != OK {
        return;
      }
      LoadAccepting(data);
      rc := ds.Delete(KEY_ACCEPTING, Injected(f, 3));
      if rc != OK {
        return;
      }

      rc, data := ds.Retrieve(KEY_TRANSITION, TABLE_SIZE, Injected(f, 4));
      if rc != OK {
        return;
      }
      LoadTable(data);
      rc := ds.Delete(KEY_TRANSITION, Injected(f, 5));
    }

    /** The init callback for every lifecycle event: zero the structures and,
        after a live update only, restore them from the store. It answers OK
        whatever the restore answered. */
    method Init(kind: InitKind, ds: DataStore, f: StoreFault) returns (rc: int)
      requires Valid()
      modifies this, accepting, transition, ds
      ensures rc == OK
      ensures kind != LiveUpdate ==> Snap() == Zero() && ds.entries == old(ds.entries)
      ensures kind == LiveUpdate ==>
        var r := Restore(old(ds.entries), Zero(), f);
        Snap() == r.snap && ds.entries == r.store
    {
      currentState := 0;
      forall q | 0 <= q < STATES {
        accepting[q] := 0;
      }
      forall k | 0 <= k < TABLE_SIZE {
        transition[k] := 0;
      }
      assert accepting[..] == Zero().accepting;
      assert transition[..] == Zero().table;
      rc := OK;
      match kind
      case Fresh =>
      case LiveUpdate =>
        var ignored := RestoreState(ds, f);
      case Restart =>
    }
  }

  /** Two feeds in a row end where one feed of the concatenation ends. */
  method FeedTwice(dev: Device, u: seq<Byte>, v: seq<Byte>) returns (ru: IoResult, rv: IoResult)
    requires dev.Valid()
    modifies dev, dev.buffer
    ensures ru == Done(|u|) && rv == Done(|v|)
    ensures dev.TableValue() == old(dev.TableValue())
    ensures dev.currentState == Run(dev.TableValue(), old(dev.currentState), u + v)
  {
    ru := dev.Write(u, NoFault);
    rv := dev.Write(v, NoFault);
    RunConcat(dev.TableValue(), old(dev.currentState), u, v);
  }

  /** Two polls with nothing in between deliver the same bytes. */
  method PollTwice(dev: Device, size: nat) returns (first: seq<Byte>, second: seq<Byte>)
    requires dev.Valid()
    modifies dev.buffer
    ensures first == second && |first| == size
  {
    var r1, r2;
    r1, first := dev.Read(size, NoFault);
    r2, second := dev.Read(size, NoFault);
  }

  /** A live update without failures: the outgoing instance saves, the
      incoming one starts with the live-update event. The incoming instance
      ends with exactly the outgoing one's structures, and the store with
      none of the three entries. */
  method Handoff(outgoing: Device, incoming: Device, ds: DataStore)
      returns (saveRc: int, initRc: int)
    requires outgoing.Valid() && incoming.Valid()
    modifies ds, incoming, incoming.accepting, incoming.transition
    ensures saveRc == OK && initRc == OK
    ensures incoming.Snap() == old(outgoing.Snap())
    ensures ds.entries == old(ds.entries) - {KEY_CURRENT, KEY_ACCEPTING, KEY_TRANSITION}
  {
    saveRc := outgoing.SaveState(ds, NoStoreFault);
    initRc := incoming.Init(LiveUpdate, ds, NoStoreFault);
    RoundTrip(old(ds.entries), old(outgoing.Snap()), Zero());
  }

  /** A freshly started driver recognising "ab": from state 0, 'a' leads to
      1 and 'b' from 1 leads to 2, which accepts. After "ab" a poll says Y;
      a further 'a' (no transition from 2 was set) falls back to 0, and a
      poll says N. An unknown request in between changes nothing. */
  method RecogniseAb(ds: DataStore) returns (dev: Device)
    modifies ds
  {
    dev := new Device();
    var rc := dev.Init(Fresh, ds, NoStoreFault);
    var a, b: Byte := 'a' as int, 'b' as int;
    rc := dev.Ioctl(AddTransition, [0, a, 1], NoFault);
    assert rc == OK;
    rc := dev.Ioctl(AddTransition, [1, b, 2], NoFault);
    rc := dev.Ioctl(Accept, [2], NoFault);
    assert Next(dev.TableValue(), 0, a) == 1 && Next(dev.TableValue(), 1, b) == 2;
    ghost var t := dev.TableValue();
    assert dev.currentState == 0;
    var w := dev.Write([a, b], NoFault);
    assert [a, b][1..] == [b] && [b][1..] == [];
    assert Run(t, 0, [a, b]) == Run(t, 1, [b]) == Run(t, 2, []);
    assert dev.currentState == 2;
    var r, out := dev.Read(1, NoFault);
    assert out == [ACCEPT_SENTINEL];
    rc := dev.Ioctl(Unsupported(0), [], NoFault);
    assert rc == ENOTTY && dev.currentState == 2;
    w := dev.Write([a], NoFault);
    assert dev.currentState == 0;
    r, out := dev.Read(1, NoFault);
    assert out == [REJECT_SENTINEL];
  }
}
