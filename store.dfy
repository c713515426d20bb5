// The key/value store of the web front end (src/web/feature/store.ts).
//
// A store created while IndexedDB is unavailable keeps its entries in a
// plain JavaScript Map (volatile mode).  Otherwise it is backed by one
// IndexedDB object store and stages every write in `dataMap` until the
// write's transaction completes (staging mode).  Durable writes are
// serialised: each becomes a closure put at the FRONT of `writeList`
// (unshift), `_write` takes the closure at the BACK (pop), and the flag
// `writing` keeps one readwrite transaction open at a time.
//
// The object store is the map `backend`; the completion or failure of the
// open put transaction are the events CommitInFlight and FailInFlight.
// IndexedDB runs the transactions of one object store in the order they
// were created, so a delete, clear or read issued while a put is open takes
// effect after that put and before every put started later.
// The promise each write returns is an entry of `promises`; the first
// settlement of a promise is the one that counts.

module KvStore {
  import opened Wrappers
  import JsMap

  type Bytes = seq<bv8>

  /** Keys are `number | string`; numbers are modelled as integers. */
  datatype Key = Num(n: int) | Str(s: string)

  /** Which of `map` and `dataMap` create gave the store. */
  datatype Mode = Volatile | Staging

  /** A queued write closure: what it puts, and which promise it settles. */
  datatype PendingWrite = PendingWrite(key: Key, data: Bytes, ticket: nat)

  datatype Settlement = Pending | Resolved | Rejected

  /** What the promise returned by read settles to. */
  datatype ReadOutcome =
    | Pair(key: Key, value: Option<Bytes>)   // volatile: [key, map.get(key)]
    | Value(data: Option<Bytes>)            // staging: the staged or stored data
    | Failed                                // the readonly request failed

  /** What iterate does. */
  datatype IterateOutcome =
    | Callbacks(calls: seq<Option<(Key, Bytes)>>)  // the callback's arguments, null as None
    | MapMissing                                   // for..of over an undefined map throws
    | CursorScan                                   // the IndexedDB cursor path

  datatype OpenOutcome = Opens | Errors | Throws

  /** A delete or clear transaction created while a put transaction is open. */
  datatype StoreOp = DeleteKey(key: Key) | ClearAll

  /** The default table name of create. */
  const DEFAULT_TAB: string := "_db"

  /** A promise settles once; later resolve/reject calls are ignored. */
  function Settle(p: Settlement, s: Settlement): (r: Settlement)
    ensures p != Pending ==> r == p
    ensures p == Pending ==> r == s
  {
    if p == Pending then s else p
  }

  function Reversed<T>(s: seq<T>): (r: seq<T>)
    ensures |r| == |s|
  {
    if s == [] then [] else Reversed(s[1..]) + [s[0]]
  }

  /** Popping the back of the queue yields the oldest closure first. */
  lemma {:induction false} ReversedSnoc<T>(s: seq<T>, x: T)
    ensures Reversed(s + [x]) == [x] + Reversed(s)
  {
    if s == [] {
      assert ([] + [x])[1..] == [];
    } else {
      assert (s + [x])[1..] == s[1..] + [x];
      ReversedSnoc(s[1..], x);
    }
  }

  lemma ReversedCons<T>(x: T, s: seq<T>)
    ensures Reversed([x] + s) == Reversed(s) + [x]
  {
    assert ([x] + s)[1..] == s;
  }

  /** The calls the volatile iterate makes over the given entries. */
  function Delivered(entries: seq<(Key, Bytes)>, cont: ((Key, Bytes)) -> bool): seq<Option<(Key, Bytes)>>
  {
    if entries == [] then [None]
    else if !cont(entries[0]) then [Some(entries[0])]
    else [Some(entries[0])] + Delivered(entries[1..], cont)
  }

  /**
   * The volatile iterate visits the entries in map order, one call each,
   * and stops right after the first call that returns false; if there is
   * none it ends with exactly one call with null.
   */
  lemma {:induction false} DeliveredShape(entries: seq<(Key, Bytes)>, cont: ((Key, Bytes)) -> bool)
    ensures var r := Delivered(entries, cont);
      && 1 <= |r| <= |entries| + 1
      && (forall i :: 0 <= i < |r| && i < |entries| ==> r[i] == Some(entries[i]))
      && (forall i :: 0 <= i < |r| - 1 ==> cont(entries[i]))
      && ((forall i :: 0 <= i < |entries| ==> cont(entries[i])) <==> r[|r| - 1] == None)
      && (r[|r| - 1] == None ==> |r| == |entries| + 1)
      && (r[|r| - 1] != None ==> !cont(entries[|r| - 1]))
  {
    if entries != [] && cont(entries[0]) {
      DeliveredShape(entries[1..], cont);
      var t := Delivered(entries[1..], cont);
      assert Delivered(entries, cont) == [Some(entries[0])] + t;
      if !(forall i :: 0 <= i < |entries| ==> cont(entries[i])) {
        var i :| 0 <= i < |entries| && !cont(entries[i]);
        assert !cont(entries[1..][i - 1]);
      }
    }
  }

  /** Some op in ops removes k from the object store. */
  predicate Touches(ops: seq<StoreOp>, k: Key)
  {
    DeleteKey(k) in ops || ClearAll in ops
  }

  /**
   * The object store after the given deletes and clears have run in order:
   * exactly the entries whose key none of them removes.
   */
  function ApplyOps(stored: map<Key, Bytes>, ops: seq<StoreOp>): (r: map<Key, Bytes>)
    ensures forall k :: k in r <==> k in stored && !Touches(ops, k)
    ensures forall k :: k in r ==> r[k] == stored[k]
    decreases |ops|
  {
    if ops == [] then stored
    else
      assert ops == [ops[0]] + ops[1..];
      var next := match ops[0] {
        case DeleteKey(k) => stored - {k}
        case ClearAll => map[]
      };
      ApplyOps(next, ops[1..])
  }

  /** Some write in q is for key k. */
  ghost predicate Mentions(q: seq<PendingWrite>, k: Key)
  {
    exists w :: w in q && w.key == k
  }

  /** Every write in q names a promise that has been handed out. */
  ghost predicate TicketsIssued(q: seq<PendingWrite>, n: nat)
  {
    forall w :: w in q ==> w.ticket < n
  }

  ghost predicate AllResolved(promises: seq<Settlement>)
  {
    forall t :: 0 <= t < |promises| ==> promises[t] == Resolved
  }

  /**
   * Key k reads as v: every outstanding write to k carries v, and v is
   * staged, or stored and removed by no waiting delete or clear when nothing
   * is staged for k.  A waiting delete or clear of a staged k is never
   * behind a put of k, whose commit would unstage k.
   */
  ghost predicate CleanAt(k: Key, v: Bytes, q: seq<PendingWrite>, open: seq<PendingWrite>,
                          staged: map<Key, Bytes>, stored: map<Key, Bytes>, ops: seq<StoreOp>)
  {
    && (forall w :: w in q && w.key == k ==> w.data == v)
    && (if k in staged then staged[k] == v && (Touches(ops, k) ==> !Mentions(open, k))
        else k in stored && stored[k] == v && !Touches(ops, k))
  }

  /** Read-your-writes for every key outside overlap. */
  ghost predicate ReadsLive(live: map<Key, Bytes>, overlap: set<Key>, q: seq<PendingWrite>, open: seq<PendingWrite>,
                            staged: map<Key, Bytes>, stored: map<Key, Bytes>, ops: seq<StoreOp>)
  {
    forall k :: k in live && k !in overlap ==> CleanAt(k, live[k], q, open, staged, stored, ops)
  }

  /** The volatile map holds exactly live. */
  ghost predicate MirrorsLive(entries: seq<(Key, Bytes)>, live: map<Key, Bytes>)
  {
    && JsMap.NoDupKeys(entries)
    && forall k :: JsMap.Get(entries, k) == if k in live then Some(live[k]) else None
  }

  lemma MirrorsSet(entries: seq<(Key, Bytes)>, live: map<Key, Bytes>, key: Key, data: Bytes)
    requires MirrorsLive(entries, live)
    ensures MirrorsLive(JsMap.Set(entries, key, data), live[key := data])
  {
    JsMap.SetNoDup(entries, key, data);
    forall k
      ensures JsMap.Get(JsMap.Set(entries, key, data), k) == if k in live[key := data] then Some(live[key := data][k]) else None
    {
      JsMap.GetSet(entries, key, data, k);
    }
  }

  lemma MirrorsRemove(entries: seq<(Key, Bytes)>, live: map<Key, Bytes>, key: Key)
    requires MirrorsLive(entries, live)
    ensures MirrorsLive(JsMap.Remove(entries, key), live - {key})
  {
    JsMap.RemoveNoDup(entries, key);
    forall k
      ensures JsMap.Get(JsMap.Remove(entries, key), k) == if k in live - {key} then Some((live - {key})[k]) else None
    {
      JsMap.GetRemove(entries, key, k);
    }
  }

  /**
   * A new staged write w keeps read-your-writes for w.key unless another
   * write to w.key is still outstanding; then w.key joins overlap.  The open
   * put is unchanged, or w itself when nothing was open.
   */
  lemma ReadsLiveWrite(live: map<Key, Bytes>, overlap: set<Key>, q: seq<PendingWrite>, open: seq<PendingWrite>,
                       staged: map<Key, Bytes>, stored: map<Key, Bytes>, ops: seq<StoreOp>,
                       w: PendingWrite, q2: seq<PendingWrite>, open2: seq<PendingWrite>)
    requires ReadsLive(live, overlap, q, open, staged, stored, ops)
    requires forall x :: x in open ==> x in q
    requires forall x :: x in q2 <==> x == w || x in q
    requires forall x :: x in open2 ==> x in open || (x == w && ops == [])
    ensures ReadsLive(live[w.key := w.data], if Mentions(q, w.key) then overlap + {w.key} else overlap - {w.key},
                      q2, open2, staged[w.key := w.data], stored, ops)
  {
    var live2 := live[w.key := w.data];
    var overlap2 := if Mentions(q, w.key) then overlap + {w.key} else overlap - {w.key};
    forall k | k in live2 && k !in overlap2
      ensures CleanAt(k, live2[k], q2, open2, staged[w.key := w.data], stored, ops)
    {
      if k != w.key {
        assert CleanAt(k, live[k], q, open, staged, stored, ops);
      } else {
        assert !Mentions(q, k);
      }
    }
  }

  /**
   * The open put w commits: the object store gets its data and then the
   * deletes and clears issued since it started, and w.key is unstaged.
   */
  lemma ReadsLiveCommit(live: map<Key, Bytes>, overlap: set<Key>, q: seq<PendingWrite>, open: seq<PendingWrite>,
                        staged: map<Key, Bytes>, stored: map<Key, Bytes>, ops: seq<StoreOp>,
                        w: PendingWrite, q2: seq<PendingWrite>, open2: seq<PendingWrite>)
    requires ReadsLive(live, overlap, q, open, staged, stored, ops)
    requires open == [w] && w in q
    requires forall x :: x in q2 ==> x in q
    ensures ReadsLive(live, overlap, q2, open2, staged - {w.key}, ApplyOps(stored[w.key := w.data], ops), [])
  {
    var stored2 := ApplyOps(stored[w.key := w.data], ops);
    forall k | k in live && k !in overlap
      ensures CleanAt(k, live[k], q2, open2, staged - {w.key}, stored2, [])
    {
      assert CleanAt(k, live[k], q, open, staged, stored, ops);
      if k == w.key && k in staged {
        assert Mentions(open, k);
      }
    }
  }

  /** The open put fails: only the deletes and clears issued since it started reach the object store. */
  lemma ReadsLiveFail(live: map<Key, Bytes>, overlap: set<Key>, q: seq<PendingWrite>, open: seq<PendingWrite>,
                      staged: map<Key, Bytes>, stored: map<Key, Bytes>, ops: seq<StoreOp>,
                      q2: seq<PendingWrite>, open2: seq<PendingWrite>)
    requires ReadsLive(live, overlap, q, open, staged, stored, ops)
    requires forall x :: x in q2 ==> x in q
    ensures ReadsLive(live, overlap, q2, open2, staged, ApplyOps(stored, ops), [])
  {
    var stored2 := ApplyOps(stored, ops);
    forall k | k in live && k !in overlap
      ensures CleanAt(k, live[k], q2, open2, staged, stored2, [])
    {
      assert CleanAt(k, live[k], q, open, staged, stored, ops);
    }
  }

  /**
   * delete(key) unstages the key and removes it from the object store, at
   * once or behind the open put; every other key is untouched.
   */
  lemma ReadsLiveDelete(live: map<Key, Bytes>, overlap: set<Key>, q: seq<PendingWrite>, open: seq<PendingWrite>,
                        staged: map<Key, Bytes>, stored: map<Key, Bytes>, ops: seq<StoreOp>,
                        key: Key, stored2: map<Key, Bytes>, ops2: seq<StoreOp>)
    requires ReadsLive(live, overlap, q, open, staged, stored, ops)
    requires stored2 - {key} == stored - {key}
    requires forall k :: k != key ==> (Touches(ops2, k) <==> Touches(ops, k))
    ensures ReadsLive(live - {key}, overlap, q, open, staged - {key}, stored2, ops2)
  {
    forall k | k in live - {key} && k !in overlap
      ensures CleanAt(k, (live - {key})[k], q, open, staged - {key}, stored2, ops2)
    {
      assert CleanAt(k, live[k], q, open, staged, stored, ops);
      assert k in stored2 <==> k in stored2 - {key};
      assert k in stored <==> k in stored - {key};
      if k in stored {
        assert stored2[k] == (stored2 - {key})[k];
      }
    }
  }

  /** The module-level `iDB`: whether IndexedDB is (still) usable. */
  class Host {
    var indexedDb: bool

    constructor(available: bool)
      ensures indexedDb == available
    {
      indexedDb := available;
    }
  }

  class Store {
    const dbName: string
    const tabName: string
    const mode: Mode
    /** The volatile `map`, entries in insertion order; empty in staging mode. */
    var mapEntries: seq<(Key, Bytes)>
    /** Writes staged until their transaction completes. */
    var dataMap: map<Key, Bytes>
    /** Queued write closures, newest first. */
    var writeList: seq<PendingWrite>
    var writing: bool
    /** The closure whose readwrite transaction is open. */
    var inFlight: Option<PendingWrite>
    /** The IndexedDB object store. */
    var backend: map<Key, Bytes>
    /** Deletes and clears created while the put is open; they run after it, in order. */
    var afterPut: seq<StoreOp>
    /** The promises returned by write, indexed by ticket. */
    var promises: seq<Settlement>

    /** Every durable write, in submission order. */
    ghost var submitted: seq<PendingWrite>
    /** The durable writes whose transaction has completed or failed, in order. */
    ghost var done: seq<PendingWrite>
    /** What a client that awaits nothing would expect each key to read. */
    ghost var live: map<Key, Bytes>
    /** Keys whose last write was submitted while another write to them was outstanding. */
    ghost var overlap: set<Key>

    function InFlightSeq(): seq<PendingWrite>
      reads this`inFlight
    {
      if inFlight.Some? then [inFlight.value] else []
    }

    /** The writes not yet completed: the open one, then the queue. */
    function Queued(): seq<PendingWrite>
      reads this`inFlight, this`writeList
    {
      InFlightSeq() + writeList
    }

    /** unshift + pop is FIFO, and at most one write transaction is open. */
    ghost predicate QueueOk()
      reads this`writing, this`inFlight, this`writeList, this`done, this`submitted
    {
      && (writing <==> inFlight.Some?)
      && done + InFlightSeq() + Reversed(writeList) == submitted
    }

    ghost predicate Valid()
      reads this
    {
      && QueueOk()
      && (!writing ==> writeList == [] && afterPut == [])
      && TicketsIssued(Queued(), |promises|)
      && AllResolved(promises)
      && (mode == Volatile ==>
            && writeList == [] && !writing && dataMap == map[] && overlap == {}
            && MirrorsLive(mapEntries, live))
      && (mode == Staging ==>
            && mapEntries == []
            && ReadsLive(live, overlap, Queued(), InFlightSeq(), dataMap, backend, afterPut))
    }

    /** The store create builds for the given mode, over the existing database contents. */
    constructor(dbName: string, tabName: string, mode: Mode, existing: map<Key, Bytes>)
      ensures this.dbName == dbName && this.tabName == tabName && this.mode == mode
      ensures mapEntries == [] && dataMap == map[] && writeList == [] && !writing && inFlight == None
      ensures afterPut == []
      ensures backend == (if mode == Staging then existing else map[])
      ensures promises == [] && submitted == [] && done == []
      ensures live == backend && overlap == {}
      ensures Valid()
    {
      this.dbName := dbName;
      this.tabName := tabName;
      this.mode := mode;
      mapEntries := [];
      dataMap := map[];
      writeList := [];
      writing := false;
      inFlight := None;
      backend := if mode == Staging then existing else map[];
      afterPut := [];
      promises := [];
      submitted := [];
      done := [];
      live := if mode == Staging then existing else map[];
      overlap := {};
    }

    /** The outcome a read of k gives when k holds v. */
    static function Holding(mode: Mode, k: Key, v: Option<Bytes>): ReadOutcome
    {
      if mode == Volatile then Pair(k, v) else Value(v)
    }

    /** The object store once the open put has run: with its data when it commits, unchanged when it fails. */
    function PutApplied(putFails: bool): map<Key, Bytes>
      reads this`inFlight, this`backend
    {
      if inFlight.Some? && !putFails then backend[inFlight.value.key := inFlight.value.data] else backend
    }

    /**
     * read(key).  A volatile store answers [key, value]; a staging store
     * answers the staged data without asking the object store.  Otherwise
     * its readonly transaction, created now, runs after the open put (whose
     * outcome is putFails) and the deletes and clears issued since, and
     * before every later put: it answers the data stored then (undefined
     * when missing), or fails.
     */
    function Read(key: Key, txFails: bool, putFails: bool): (r: ReadOutcome)
      reads this
      ensures mode == Volatile ==> r.Pair? && r.key == key
      ensures mode == Staging && key in dataMap ==> r == Value(Some(dataMap[key]))
      ensures mode == Staging && key !in dataMap && txFails ==> r == Failed
      ensures mode == Staging && key !in dataMap && !txFails ==>
        r == Value(if key in PutApplied(putFails) && !Touches(afterPut, key) then Some(PutApplied(putFails)[key]) else None)
      ensures Valid() && mode == Volatile ==> r == Pair(key, if key in live then Some(live[key]) else None)
      ensures Valid() && key in live && key !in overlap && !txFails ==> r == Holding(mode, key, Some(live[key]))
    {
      if mode == Volatile then Pair(key, JsMap.Get(mapEntries, key))
      else if key in dataMap then Value(Some(dataMap[key]))
      else if txFails then Failed
      else
        var stored := ApplyOps(PutApplied(putFails), afterPut);
        Value(if key in stored then Some(stored[key]) else None)
    }

    /** _write: start the oldest queued closure, if any. */
    method WriteNext()
      requires QueueOk() && !writing
      modifies this`writeList, this`inFlight, this`writing
      ensures QueueOk()
      ensures old(writeList) == [] ==> writeList == [] && !writing && inFlight == None
      ensures old(writeList) != [] ==>
        && writing && inFlight == Some(old(writeList)[|old(writeList)| - 1])
        && writeList == old(writeList)[..|old(writeList)| - 1]
      ensures forall w :: w in old(Queued()) <==> w in Queued()
    {
      if writeList != [] {
        var w := writeList[|writeList| - 1];
        writeList := writeList[..|writeList| - 1];
        assert old(writeList) == writeList + [w];
        ReversedSnoc(writeList, w);
        inFlight := Some(w);
        writing := true;
      }
    }

    /** Lines of write that queue the closure and start it when no transaction is open. */
    method Enqueue(w: PendingWrite)
      requires QueueOk() && (!writing ==> writeList == [])
      modifies this`writeList, this`inFlight, this`writing, this`submitted
      ensures QueueOk() && writing
      ensures submitted == old(submitted) + [w]
      ensures old(writing) ==> writeList == [w] + old(writeList) && inFlight == old(inFlight)
      ensures !old(writing) ==> writeList == [] && inFlight == Some(w)
      ensures forall x :: x in Queued() <==> x == w || x in old(Queued())
    {
      ReversedCons(w, writeList);
      writeList := [w] + writeList;
      submitted := submitted + [w];
      if !writing {
        WriteNext();
      }
    }

    /** write(key, data): resolves at once; a staging store also queues the put. */
    method Write(key: Key, data: Bytes) returns (ticket: nat)
      requires Valid()
      modifies this
      ensures Valid()
      ensures ticket == |old(promises)| && promises == old(promises) + [Resolved]
      ensures live == old(live)[key := data]
      ensures forall txFails, putFails :: Read(key, txFails, putFails) == Holding(mode, key, Some(data))
      ensures backend == old(backend) && afterPut == old(afterPut)
      ensures mode == Volatile ==>
        && mapEntries == JsMap.Set(old(mapEntries), key, data)
        && submitted == old(submitted) && writeList == [] && !writing
      ensures mode == Staging ==>
        && dataMap == old(dataMap)[key := data] && backend == old(backend)
        && submitted == old(submitted) + [PendingWrite(key, data, ticket)] && done == old(done)
        && writing
        && (old(writing) ==> writeList == [PendingWrite(key, data, ticket)] + old(writeList) && inFlight == old(inFlight))
        && (!old(writing) ==> writeList == [] && inFlight == Some(PendingWrite(key, data, ticket)))
        && overlap == (if Mentions(old(Queued()), key) then old(overlap) + {key} else old(overlap) - {key})
    {
      if mode == Volatile {
        ticket := WriteVolatile(key, data);
      } else {
        ticket := WriteStaged(key, data);
      }
    }

    /** The volatile branch of write: map.set, then resolve. */
    method WriteVolatile(key: Key, data: Bytes) returns (ticket: nat)
      requires Valid() && mode == Volatile
      modifies this
      ensures Valid()
      ensures ticket == |old(promises)| && promises == old(promises) + [Resolved]
      ensures live == old(live)[key := data]
      ensures mapEntries == JsMap.Set(old(mapEntries), key, data)
      ensures submitted == old(submitted) && done == old(done) && writeList == [] && !writing
      ensures dataMap == old(dataMap) && backend == old(backend) && overlap == old(overlap)
    {
      ticket := |promises|;
      MirrorsSet(mapEntries, live, key, data);
      mapEntries := JsMap.Set(mapEntries, key, data);
      live := live[key := data];
      promises := promises + [Resolved];
    }

    /**
     * The staging branch of write: queue the closure, start it when no
     * transaction is open, stage the data, resolve.
     */
    method WriteStaged(key: Key, data: Bytes) returns (ticket: nat)
      requires Valid() && mode == Staging
      modifies this`promises, this`writeList, this`inFlight, this`writing, this`submitted, this`dataMap, this`live, this`overlap
      ensures Valid()
      ensures ticket == |old(promises)| && promises == old(promises) + [Resolved]
      ensures live == old(live)[key := data]
      ensures dataMap == old(dataMap)[key := data] && backend == old(backend) && mapEntries == old(mapEntries)
      ensures submitted == old(submitted) + [PendingWrite(key, data, ticket)] && done == old(done)
      ensures writing
      ensures old(writing) ==> writeList == [PendingWrite(key, data, ticket)] + old(writeList) && inFlight == old(inFlight)
      ensures !old(writing) ==> writeList == [] && inFlight == Some(PendingWrite(key, data, ticket))
      ensures overlap == (if Mentions(old(Queued()), key) then old(overlap) + {key} else old(overlap) - {key})
    {
      ghost var q0, open0 := Queued(), InFlightSeq();
      ticket := |promises|;
      var w := PendingWrite(key, data, ticket);
      Enqueue(w);
      assert forall x :: x in InFlightSeq() ==> x in open0 || (x == w && afterPut == []);
      Stage(w, q0, open0);
    }

    /** Lines of write that stage the data and resolve the promise. */
    method Stage(w: PendingWrite, ghost q0: seq<PendingWrite>, ghost open0: seq<PendingWrite>)
      requires mode == Staging && mapEntries == []
      requires QueueOk() && writing && AllResolved(promises) && w.ticket == |promises|
      requires TicketsIssued(q0, |promises|)
      requires forall x :: x in Queued() <==> x == w || x in q0
      requires forall x :: x in open0 ==> x in q0
      requires forall x :: x in InFlightSeq() ==> x in open0 || (x == w && afterPut == [])
      requires ReadsLive(live, overlap, q0, open0, dataMap, backend, afterPut)
      modifies this`dataMap, this`promises, this`live, this`overlap
      ensures Valid()
      ensures dataMap == old(dataMap)[w.key := w.data] && promises == old(promises) + [Resolved]
      ensures live == old(live)[w.key := w.data]
      ensures overlap == (if Mentions(q0, w.key) then old(overlap) + {w.key} else old(overlap) - {w.key})
    {
      ReadsLiveWrite(live, overlap, q0, open0, dataMap, backend, afterPut, w, Queued(), InFlightSeq());
      dataMap := dataMap[w.key := w.data];
      promises := promises + [Resolved];
      live := live[w.key := w.data];
      overlap := if Mentions(q0, w.key) then overlap + {w.key} else overlap - {w.key};
    }

    /** The tail of both transaction callbacks: clear `writing`, start the next closure. */
    method Complete()
      requires QueueOk() && writing
      modifies this`writing, this`inFlight, this`writeList, this`done
      ensures QueueOk() && (!writing ==> writeList == [])
      ensures done == old(done) + [old(inFlight).value]
      ensures old(writeList) == [] ==> !writing && inFlight == None && writeList == []
      ensures old(writeList) != [] ==>
        && writing && inFlight == Some(old(writeList)[|old(writeList)| - 1])
        && writeList == old(writeList)[..|old(writeList)| - 1]
      ensures forall x :: x in Queued() ==> x in old(Queued())
    {
      done := done + [inFlight.value];
      inFlight := None;
      writing := false;
      WriteNext();
    }

    /**
     * oncomplete of the open put: the object store holds the data, then the
     * deletes and clears issued since run, the key is unstaged (whatever is
     * staged for it now), and the next closure starts.
     */
    method CommitInFlight()
      requires Valid() && writing
      modifies this`backend, this`afterPut, this`dataMap, this`writing, this`inFlight, this`writeList, this`done
      ensures Valid()
      ensures backend == ApplyOps(old(backend)[old(inFlight).value.key := old(inFlight).value.data], old(afterPut))
      ensures afterPut == []
      ensures dataMap == old(dataMap) - {old(inFlight).value.key}
      ensures done == old(done) + [old(inFlight).value]
      ensures old(writeList) == [] ==> !writing && inFlight == None && writeList == []
      ensures old(writeList) != [] ==>
        && writing && inFlight == Some(old(writeList)[|old(writeList)| - 1])
        && writeList == old(writeList)[..|old(writeList)| - 1]
    {
      var w := inFlight.value;
      ghost var q0, open0 := Queued(), InFlightSeq();
      ghost var staged, stored, ops := dataMap, backend, afterPut;
      backend := ApplyOps(backend[w.key := w.data], afterPut);
      afterPut := [];
      dataMap := dataMap - {w.key};
      Complete();
      ReadsLiveCommit(live, overlap, q0, open0, staged, stored, ops, w, Queued(), InFlightSeq());
    }

    /**
     * onerror of the open put: the reject comes after the resolve and is
     * ignored, the staged data stays, the deletes and clears issued since
     * still run, and the next closure starts.
     */
    method FailInFlight()
      requires Valid() && writing
      modifies this`promises, this`backend, this`afterPut, this`writing, this`inFlight, this`writeList, this`done
      ensures Valid()
      ensures promises == old(promises)
      ensures backend == ApplyOps(old(backend), old(afterPut)) && afterPut == []
      ensures done == old(done) + [old(inFlight).value]
      ensures old(writeList) == [] ==> !writing && inFlight == None && writeList == []
      ensures old(writeList) != [] ==>
        && writing && inFlight == Some(old(writeList)[|old(writeList)| - 1])
        && writeList == old(writeList)[..|old(writeList)| - 1]
    {
      var w := inFlight.value;
      ghost var q0, open0 := Queued(), InFlightSeq();
      ghost var stored, ops := backend, afterPut;
      assert w in q0;
      promises := promises[w.ticket := Settle(promises[w.ticket], Rejected)];
      assert promises == old(promises);
      backend := ApplyOps(backend, afterPut);
      afterPut := [];
      Complete();
      ReadsLiveFail(live, overlap, q0, open0, dataMap, stored, ops, Queued(), InFlightSeq());
    }

    /**
     * delete(key): a volatile store deletes from the map; a staging store
     * unstages the key and deletes it from the object store in a transaction
     * of its own, without going through writeList.  That transaction runs at
     * once when no put is open, and behind the open put otherwise.
     */
    method Delete(key: Key, txFails: bool) returns (ok: bool)
      requires Valid()
      modifies this`mapEntries, this`dataMap, this`backend, this`afterPut, this`live
      ensures Valid()
      ensures ok == (mode == Volatile || !txFails)
      ensures live == old(live) - {key}
      ensures writeList == old(writeList) && writing == old(writing) && inFlight == old(inFlight)
      ensures mode == Volatile ==> mapEntries == JsMap.Remove(old(mapEntries), key)
      ensures mode == Volatile ==> dataMap == old(dataMap) && backend == old(backend) && afterPut == old(afterPut)
      ensures mode == Staging ==>
        && dataMap == old(dataMap) - {key}
        && backend == (if txFails || writing then old(backend) else old(backend) - {key})
        && afterPut == (if !txFails && writing then old(afterPut) + [DeleteKey(key)] else old(afterPut))
      ensures ok ==> forall putFails :: Read(key, false, putFails) == Holding(mode, key, None)
    {
      if mode == Volatile {
        MirrorsRemove(mapEntries, live, key);
        mapEntries := JsMap.Remove(mapEntries, key);
        live := live - {key};
        return true;
      }
      ghost var staged, stored, ops := dataMap, backend, afterPut;
      dataMap := dataMap - {key};
      if !txFails {
        if writing {
          afterPut := afterPut + [DeleteKey(key)];
        } else {
          backend := backend - {key};
        }
      }
      ok := !txFails;
      ReadsLiveDelete(live, overlap, Queued(), InFlightSeq(), staged, stored, ops, key, backend, afterPut);
      live := live - {key};
    }

    /**
     * clear(): a volatile store empties the map; a staging store empties
     * dataMap and clears the object store in a transaction of its own, at
     * once when no put is open and behind the open put otherwise.
     */
    method Clear(txFails: bool) returns (ok: bool)
      requires Valid()
      modifies this`mapEntries, this`dataMap, this`backend, this`afterPut, this`live
      ensures Valid()
      ensures ok == (mode == Volatile || !txFails)
      ensures live == map[]
      ensures writeList == old(writeList) && writing == old(writing) && inFlight == old(inFlight)
      ensures mode == Volatile ==> mapEntries == []
      ensures mode == Volatile ==> dataMap == old(dataMap) && backend == old(backend) && afterPut == old(afterPut)
      ensures mode == Staging ==>
        && dataMap == map[]
        && backend == (if txFails || writing then old(backend) else map[])
        && afterPut == (if !txFails && writing then old(afterPut) + [ClearAll] else old(afterPut))
      ensures ok ==> forall k, putFails :: Read(k, false, putFails) == Holding(mode, k, None)
    {
      if mode == Volatile {
        mapEntries := [];
        live := map[];
        return true;
      }
      dataMap := map[];
      if !txFails {
        if writing {
          afterPut := afterPut + [ClearAll];
        } else {
          backend := map[];
        }
      }
      ok := !txFails;
      live := map[];
    }

    /**
     * iterate(callback): the path is chosen by the module-level iDB, not by
     * the store's mode.  Without IndexedDB the entries of `map` are passed
     * to the callback in order; `cont` says whether the callback did not
     * return false.
     */
    method Iterate(host: Host, cont: ((Key, Bytes)) -> bool) returns (r: IterateOutcome)
      ensures host.indexedDb ==> r == CursorScan
      ensures !host.indexedDb && mode == Staging ==> r == MapMissing
      ensures !host.indexedDb && mode == Volatile ==> r == Callbacks(Delivered(mapEntries, cont))
    {
      if host.indexedDb {
        return CursorScan;
      }
      if mode == Staging {
        return MapMissing;
      }
      var calls: seq<Option<(Key, Bytes)>> := [];
      var i := 0;
      while i < |mapEntries|
        invariant 0 <= i <= |mapEntries|
        invariant calls + Delivered(mapEntries[i..], cont) == Delivered(mapEntries, cont)
      {
        assert mapEntries[i..][1..] == mapEntries[i + 1..];
        calls := calls + [Some(mapEntries[i])];
        if !cont(mapEntries[i]) {
          return Callbacks(calls);
        }
        i := i + 1;
      }
      calls := calls + [None];
      return Callbacks(calls);
    }
  }

  /**
   * Store.create.  Without IndexedDB, or when opening throws synchronously
   * (which also clears the module-level iDB), the store is volatile; when
   * the open request succeeds it is a staging store over the database's
   * existing contents; when the request errors the promise rejects.
   */
  method Create(host: Host, dbName: string, tabName: string, existing: map<Key, Bytes>, open: OpenOutcome)
    returns (s: Store?)
    modifies host
    ensures s == null <==> old(host.indexedDb) && open == Errors
    ensures s != null ==> fresh(s) && s.Valid() && s.dbName == dbName && s.tabName == tabName
    ensures s != null ==> s.writeList == [] && !s.writing && s.dataMap == map[] && s.mapEntries == []
    ensures s != null ==> (s.mode == Staging <==> old(host.indexedDb) && open == Opens)
    ensures s != null && s.mode == Staging ==> s.backend == existing && s.live == existing
    ensures host.indexedDb == (old(host.indexedDb) && open != Throws)
    ensures s != null && s.mode == Volatile ==> !host.indexedDb
  {
    if !host.indexedDb {
      s := new Store(dbName, tabName, Volatile, map[]);
      return;
    }
    match open {
      case Opens =>
        s := new Store(dbName, tabName, Staging, existing);
      case Errors =>
        s := null;
      case Throws =>
        host.indexedDb := false;
        s := new Store(dbName, tabName, Volatile, map[]);
    }
  }

  /**
   * Completions and failures happen in submission order, one at a time:
   * the finished writes are a prefix of the submitted ones, followed by the
   * open one, then the queue from its back to its front.
   */
  lemma QueueOrder(s: Store)
    requires s.Valid()
    ensures s.done <= s.submitted
    ensures s.writing ==> |s.done| < |s.submitted| && s.submitted[|s.done|] == s.inFlight.value
    ensures s.submitted[|s.done| + |s.InFlightSeq()|..] == Reversed(s.writeList)
    ensures !s.writing ==> s.done == s.submitted
  {
    assert s.done + s.InFlightSeq() + Reversed(s.writeList) == s.submitted;
    assert (s.done + s.InFlightSeq()) + Reversed(s.writeList) == s.submitted;
  }

  /**
   * Writes to k, then j, then k again: when the first commits it unstages k
   * although the third write is still queued, and a read, whose transaction
   * runs after the put of j and before the put of the third write, returns
   * the OLDER data of k whatever the put of j does.
   */
  method NewerWriteLost() returns (older: Bytes, newer: Bytes, before: ReadOutcome,
                                   after: ReadOutcome, afterIfPutFails: ReadOutcome)
    ensures older != newer
    ensures before == Value(Some(newer))
    ensures after == Value(Some(older)) && afterIfPutFails == Value(Some(older))
  {
    var s := new Store("db", DEFAULT_TAB, Staging, map[]);
    var k, j := Str("k"), Str("j");
    older := [1];
    newer := [3];
    var t1 := s.Write(k, older);
    var t2 := s.Write(j, [2]);
    var t3 := s.Write(k, newer);
    before := s.Read(k, false, false);
    s.CommitInFlight();
    after := s.Read(k, false, false);
    afterIfPutFails := s.Read(k, false, true);
  }

  /**
   * A delete issued while the put of the same key is open runs after that
   * put, so the key stays deleted once the put commits.
   */
  method DeleteAfterOpenPut() returns (r: ReadOutcome)
    ensures r == Value(None)
  {
    var s := new Store("db", DEFAULT_TAB, Staging, map[]);
    var k := Str("k");
    var t := s.Write(k, [1]);
    var ok := s.Delete(k, false);
    s.CommitInFlight();
    r := s.Read(k, false, false);
  }

  /**
   * A delete issued while a write of the same key is still queued runs
   * before that write's put: once the put commits the deleted key is back.
   */
  method DeleteUndoneByQueuedWrite() returns (deleted: ReadOutcome, r: ReadOutcome)
    ensures deleted == Value(None)
    ensures r == Value(Some([1]))
  {
    var s := new Store("db", DEFAULT_TAB, Staging, map[]);
    var j, k := Str("j"), Str("k");
    var t0 := s.Write(j, [0]);
    var t1 := s.Write(k, [1]);
    var ok := s.Delete(k, false);
    deleted := s.Read(k, false, false);
    s.CommitInFlight();
    s.CommitInFlight();
    r := s.Read(k, false, false);
  }

  /**
   * A staging store whose iterate throws: after a later create falls back
   * to volatile mode, iDB is cleared, and every store takes the map path.
   */
  method IterateAfterFallback(cont: ((Key, Bytes)) -> bool) returns (r: IterateOutcome)
    ensures r == MapMissing
  {
    var host := new Host(true);
    var first := Create(host, "a", DEFAULT_TAB, map[], Opens);
    var second := Create(host, "b", DEFAULT_TAB, map[], Throws);
    r := first.Iterate(host, cont);
  }
}
