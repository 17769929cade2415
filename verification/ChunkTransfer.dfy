/** A file sent in chunks, end to end: the sender's manifest, then chunks that arrive in any order, more
    than once, corrupted, and with the receiving process dying in between. */
module ChunkTransfer {
  import opened Bytes
  import opened ChunkState
  import opened ChunkProtocol
  import opened ChunkWriter

  /** What happens to the receiver. After a death the process is started again. */
  datatype Event =
    | Deliver(idx: int, data: Bytes)
    | DieInWrite(idx: int, data: Bytes, cut: Cut)
    | Restart

  /** Chunk i of the file has been delivered whole. */
  ghost predicate Delivered(h: Hash, m: Manifest, events: seq<Event>, i: nat)
    requires WellFormed(m) && i < m.chunkCount
  {
    exists k :: 0 <= k < |events| && events[k].Deliver? && events[k].idx == i && Fits(h, m, i, events[k].data)
  }

  /** The flags, in memory and on disk, are those of the chunks delivered so far. */
  ghost predicate Agrees(w: ChunkWriter, events: seq<Event>)
    reads w, w.store
  {
    && w.Valid() && Inv(w.hash, w.manifest, w.Abs())
    && (forall i :: 0 <= i < w.manifest.chunkCount ==> (w.received[i] <==> Delivered(w.hash, w.manifest, events, i)))
    && (w.store.meta.Some? ==> w.store.meta.value.received == w.received)
    && (w.store.meta.None? ==> forall i :: 0 <= i < w.manifest.chunkCount ==> !w.received[i])
  }

  lemma DeliveredMore(h: Hash, m: Manifest, events: seq<Event>, e: Event, i: nat)
    requires WellFormed(m) && i < m.chunkCount
    ensures Delivered(h, m, events + [e], i) <==>
            Delivered(h, m, events, i) || (e.Deliver? && e.idx == i && Fits(h, m, i, e.data))
  {
    var all := events + [e];
    assert all[|events|] == e;
    if Delivered(h, m, events, i) {
      var k :| 0 <= k < |events| && events[k].Deliver? && events[k].idx == i && Fits(h, m, i, events[k].data);
      assert all[k] == events[k];
    }
  }

  method Open(h: Hash, m: Manifest, store: Store, ghost events: seq<Event>, ghost flags: seq<bool>) returns (w: ChunkWriter)
    requires WellFormed(m) && SavedOk(h, m, Disk(store.chunks, store.meta, store.tmp)) && |flags| == m.chunkCount
    requires forall i :: 0 <= i < |flags| ==> (flags[i] <==> Delivered(h, m, events, i))
    requires store.meta.Some? ==> store.meta.value.received == flags
    requires store.meta.None? ==> forall i :: 0 <= i < |flags| ==> !flags[i]
    ensures fresh(w) && w.hash == h && w.manifest == m && w.store == store
    ensures Agrees(w, events) && w.received == flags
  {
    w := new ChunkWriter(h, m, store);
    assert w.received == flags;
  }

  method Handle(w: ChunkWriter, e: Event, ghost events: seq<Event>) returns (next: ChunkWriter)
    requires Agrees(w, events)
    modifies w, w.store
    ensures next.store == w.store && next.hash == w.hash && next.manifest == w.manifest && (next == w || fresh(next))
    ensures Agrees(next, events + [e])
  {
    ghost var flags := w.received;
    forall i | 0 <= i < w.manifest.chunkCount
      ensures Delivered(w.hash, w.manifest, events + [e], i) <==>
              Delivered(w.hash, w.manifest, events, i) || (e.Deliver? && e.idx == i && Fits(w.hash, w.manifest, i, e.data))
    {
      DeliveredMore(w.hash, w.manifest, events, e, i);
    }
    match e
    case Deliver(idx, data) =>
      var r := w.WriteChunk(idx, data);
      next := w;
    case DieInWrite(idx, data, cut) =>
      w.Die(idx, data, cut);
      next := Open(w.hash, w.manifest, w.store, events + [e], flags);
    case Restart =>
      next := Open(w.hash, w.manifest, w.store, events + [e], flags);
  }

  method HandleAll(h: Hash, m: Manifest, events: seq<Event>) returns (w: ChunkWriter)
    requires WellFormed(m)
    ensures fresh(w) && fresh(w.store) && w.hash == h && w.manifest == m && Agrees(w, events)
  {
    var store := new Store();
    w := Open(h, m, store, [], NoneReceived(m.chunkCount));
    var k := 0;
    while k < |events|
      invariant 0 <= k <= |events| && fresh(w) && fresh(store)
      invariant w.store == store && w.hash == h && w.manifest == m
      invariant Agrees(w, events[..k])
    {
      assert events[..k + 1] == events[..k] + [events[k]];
      w := Handle(w, events[k], events[..k]);
      k := k + 1;
    }
    assert events[..k] == events;
  }

  method Receive(h: Hash, m: Manifest, events: seq<Event>) returns (r: Assembled)
    requires WellFormed(m)
    ensures forall file :: Describes(h, m, file) && NoSecondPreimage(h, Split(file)) ==>
              r == if forall i :: 0 <= i < m.chunkCount ==> Delivered(h, m, events, i) then Done(file) else Incomplete
  {
    var w := HandleAll(h, m, events);
    CountAll(w.received);
    r := w.Assemble();
  }

  /** The file arrives exactly if every chunk of it has been delivered at least once, whatever else was
      delivered, in whatever order, and wherever the process died; and until then the receiver says so. */
  method Transfer(h: Hash, file: Bytes, taskID: string, fileName: string, events: seq<Event>) returns (r: Assembled)
    requires NoSecondPreimage(h, Split(file))
    ensures r == if forall i :: 0 <= i < |Split(file)| ==> Deliver(i, Split(file)[i]) in events then Done(file) else Incomplete
  {
    var reader := new ChunkReader(h, file, |file|);
    assert file[0..] == file;
    var built := reader.BuildManifest(taskID, fileName);
    var m := built.manifest;
    DeliveredIff(h, m, file, events);
    r := Receive(h, m, events);
  }

  lemma DeliveredIff(h: Hash, m: Manifest, file: Bytes, events: seq<Event>)
    requires Describes(h, m, file) && NoSecondPreimage(h, Split(file))
    ensures forall i :: 0 <= i < m.chunkCount ==> (Delivered(h, m, events, i) <==> Deliver(i, Split(file)[i]) in events)
  {
    forall i | 0 <= i < m.chunkCount ensures Delivered(h, m, events, i) <==> Deliver(i, Split(file)[i]) in events {
      if Delivered(h, m, events, i) {
        var k :| 0 <= k < |events| && events[k].Deliver? && events[k].idx == i && Fits(h, m, i, events[k].data);
        AcceptsOnlyTheChunk(h, m, file, i, events[k].data);
        assert events[k] == Deliver(i, Split(file)[i]);
      }
      if Deliver(i, Split(file)[i]) in events {
        var k :| 0 <= k < |events| && events[k] == Deliver(i, Split(file)[i]);
        AcceptsOnlyTheChunk(h, m, file, i, Split(file)[i]);
      }
    }
  }
}
