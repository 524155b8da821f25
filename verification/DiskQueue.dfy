/**
 The agent's store-and-forward queue on disk. Occupancy is cached; over every
 sequence of operations, with any of the file system calls failing, the cached
 bytes agree with the directory, and the cached count does exactly when no
 acknowledgement of an item already gone has lowered it.
 */
module DiskQueue {
  import opened Options
  import opened Text

  /** Directory entries: timed and unique event files, and anything else. */
  datatype FileName = Timed(nanos: nat, id: string) | Unique(key: string) | Other(name: string)

  predicate IsEventFile(n: FileName) {
    !n.Other?
  }

  datatype Event = Event(id: string, body: string)

  /** A stored item: its size and, when it can be decoded, its event. */
  datatype File = File(size: nat, content: Option<Event>)

  type Directory = map<FileName, File>

  // ----- the true occupancy -----

  ghost function EventFiles(d: Directory): set<FileName> {
    set n | n in d && IsEventFile(n)
  }

  /** Total size of the given files. */
  ghost function SizeOf(names: set<FileName>, d: Directory): nat
    requires names <= d.Keys
  {
    if names == {} then 0
    else
      var n :| n in names;
      d[n].size + SizeOf(names - {n}, d)
  }

  ghost function TotalBytes(d: Directory): nat {
    SizeOf(EventFiles(d), d)
  }

  lemma {:induction false} SizeOfRemove(names: set<FileName>, d: Directory, n: FileName)
    requires names <= d.Keys && n in names
    ensures SizeOf(names, d) == d[n].size + SizeOf(names - {n}, d)
    decreases names
  {
    var m :| m in names && SizeOf(names, d) == d[m].size + SizeOf(names - {m}, d);
    if m != n {
      SizeOfRemove(names - {m}, d, n);
      assert names - {m} - {n} == names - {n} - {m};
      SizeOfRemove(names - {n}, d, m);
    }
  }

  lemma SizeOfNone(d: Directory)
    ensures SizeOf({}, d) == 0
  {
  }

  lemma {:induction false} SizeOfAgrees(names: set<FileName>, d: Directory, e: Directory)
    requires names <= d.Keys && names <= e.Keys && forall n :: n in names ==> d[n] == e[n]
    ensures SizeOf(names, d) == SizeOf(names, e)
    decreases names
  {
    if names != {} {
      var n :| n in names;
      SizeOfRemove(names, d, n);
      SizeOfRemove(names, e, n);
      SizeOfAgrees(names - {n}, d, e);
    }
  }

  lemma TotalAfterAdd(d: Directory, n: FileName, f: File)
    requires n !in d && IsEventFile(n)
    ensures TotalBytes(d[n := f]) == TotalBytes(d) + f.size
    ensures EventFiles(d[n := f]) == EventFiles(d) + {n} && |EventFiles(d[n := f])| == |EventFiles(d)| + 1
  {
    var e := d[n := f];
    assert EventFiles(e) == EventFiles(d) + {n};
    SizeOfRemove(EventFiles(e), e, n);
    assert EventFiles(e) - {n} == EventFiles(d);
    SizeOfAgrees(EventFiles(d), d, e);
  }

  lemma TotalAfterRemove(d: Directory, n: FileName)
    requires n in d && IsEventFile(n)
    ensures TotalBytes(d) == TotalBytes(d - {n}) + d[n].size
    ensures |EventFiles(d)| == |EventFiles(d - {n})| + 1
  {
    var e := d - {n};
    SizeOfRemove(EventFiles(d), d, n);
    assert EventFiles(e) == EventFiles(d) - {n};
    SizeOfAgrees(EventFiles(e), d, e);
  }

  ghost predicate PositiveSizes(d: Directory) {
    forall n :: n in EventFiles(d) ==> d[n].size > 0
  }

  /** With no empty file, no bytes means no files. */
  lemma NoBytesMeansNoFiles(d: Directory)
    requires PositiveSizes(d)
    ensures TotalBytes(d) == 0 <==> EventFiles(d) == {}
  {
    if EventFiles(d) != {} {
      var n :| n in EventFiles(d);
      SizeOfRemove(EventFiles(d), d, n);
    }
  }

  /** The content of a unique file belongs under its name. */
  ghost predicate UniqueNamed(d: Directory, digest: string -> string) {
    forall k :: Unique(k) in d && d[Unique(k)].content.Some? ==> digest(d[Unique(k)].content.value.id) == k
  }

  lemma AddKeepsSizes(d: Directory, n: FileName, f: File)
    requires PositiveSizes(d) && f.size > 0
    ensures PositiveSizes(d[n := f])
  {
  }

  lemma AddKeepsNames(d: Directory, n: FileName, f: File, digest: string -> string)
    requires UniqueNamed(d, digest)
    requires n.Unique? && f.content.Some? ==> digest(f.content.value.id) == n.key
    ensures UniqueNamed(d[n := f], digest)
  {
  }

  lemma RemoveKeepsSizes(d: Directory, n: FileName)
    ensures PositiveSizes(d) ==> PositiveSizes(d - {n})
  {
  }

  lemma RemoveKeepsNames(d: Directory, n: FileName, digest: string -> string)
    requires UniqueNamed(d, digest)
    ensures UniqueNamed(d - {n}, digest)
  {
  }

  /** Hence an event ID has at most one unique file. */
  lemma AtMostOneUniqueFile(d: Directory, digest: string -> string, j: string, k: string)
    requires UniqueNamed(d, digest) && Unique(j) in d && Unique(k) in d
    requires d[Unique(j)].content.Some? && d[Unique(k)].content.Some?
    requires d[Unique(j)].content.value.id == d[Unique(k)].content.value.id
    ensures Unique(j) == Unique(k)
  {
    assert digest(d[Unique(j)].content.value.id) == j;
  }

  // ----- the cache -----

  /**
   What the cache cannot know: the acknowledgements since the last scan that lowered
   the count without removing a file, less those that removed a file at count zero;
   whether one of the first kind has occurred; and whether every event file since
   the queue was opened has had at least one byte.
   */
  datatype Ledger = Ledger(lost: int, acknowledgedTwice: bool, positive: bool)

  function Scanned(l: Ledger): Ledger {
    Ledger(0, false, l.positive)
  }

  function Acknowledged(l: Ledger, present: bool, count: int): (r: Ledger)
    ensures r.positive == l.positive
  {
    if !present && count > 0 then Ledger(l.lost + 1, true, l.positive)
    else if present && count == 0 then l.(lost := l.lost - 1)
    else l
  }

  /** How a measured cache relates to the directory. */
  ghost predicate Agrees(d: Directory, count: int, bytes: int, l: Ledger) {
    && bytes == TotalBytes(d)
    && 0 <= l.lost && count + l.lost == |EventFiles(d)|
    && (count == 0 ==> bytes == 0)
    && (l.positive ==> PositiveSizes(d) && (l.acknowledgedTwice <==> l.lost > 0))
  }

  /** An acknowledgement keeps the agreement unless the bytes contradict the new count. */
  lemma AcknowledgeKeepsAgreement(d: Directory, n: FileName, count: int, bytes: int, l: Ledger)
    requires Agrees(d, count, bytes, l) && count >= 0 && IsEventFile(n)
    ensures var count', bytes' := if count > 0 then count - 1 else 0, bytes - SizeIn(d, n);
            && bytes' == TotalBytes(d - {n}) >= 0
            && (Agrees(d - {n}, count', bytes', Acknowledged(l, n in d, count)) <==> (count' == 0 ==> bytes' == 0))
  {
    hide TotalBytes, EventFiles, PositiveSizes, UniqueNamed;
    if n in d {
      TotalAfterRemove(d, n);
      RemoveKeepsSizes(d, n);
      if l.positive {
        NoBytesMeansNoFiles(d);
        EventFilesHave(d, n);
      }
    } else {
      assert d - {n} == d;
    }
  }

  lemma StoreKeepsAgreement(d: Directory, n: FileName, f: File, count: int, bytes: int, l: Ledger)
    requires Agrees(d, count, bytes, l) && count >= 0 && n !in d && IsEventFile(n)
    ensures bytes == TotalBytes(d) && TotalBytes(d[n := f]) == bytes + f.size
    ensures Agrees(d[n := f], count + 1, bytes + f.size, l.(positive := l.positive && f.size > 0))
  {
    hide TotalBytes, EventFiles, PositiveSizes;
    TotalAfterAdd(d, n, f);
    if l.positive && f.size > 0 {
      AddKeepsSizes(d, n, f);
    }
  }

  lemma EventFilesHave(d: Directory, n: FileName)
    requires n in d && IsEventFile(n)
    ensures n in EventFiles(d)
  {
  }

  function SizeIn(d: Directory, n: FileName): nat {
    if n in d then d[n].size else 0
  }

  // ----- operations -----

  /** Which file system calls succeed. */
  datatype Calls = Calls(listed: bool, stated: bool, written: bool, renamed: bool, readable: bool, removed: bool)

  const ALL_SUCCEED := Calls(true, true, true, true, true, true)

  datatype Enqueued = Queued(file: FileName) | Full | Refused

  /** A caller's reference to a queued item. */
  datatype Reference = Reference(file: FileName) | Malformed

  /** One pass over the directory; it stops at the first entry whose size cannot be read. */
  method Scan(directory: Directory, stated: bool) returns (ok: bool, total: nat, size: nat)
    ensures ok == (stated || EventFiles(directory) == {})
    ensures ok ==> total == |EventFiles(directory)| && size == TotalBytes(directory)
  {
    hide SizeOf;
    total, size := 0, 0;
    SizeOfNone(directory);
    var rest := directory.Keys;
    ghost var done: set<FileName> := {};
    while rest != {}
      invariant rest <= directory.Keys && done == EventFiles(directory) - rest
      invariant total == |done| && size == SizeOf(done, directory)
      invariant !stated ==> done == {}
    {
      var entry :| entry in rest;
      rest := rest - {entry};
      if !IsEventFile(entry) {
        assert done == EventFiles(directory) - rest;
        continue;
      }
      if !stated {
        assert entry in EventFiles(directory);
        return false, total, size;
      }
      assert EventFiles(directory) - rest == done + {entry};
      SizeOfRemove(done + {entry}, directory, entry);
      assert done + {entry} - {entry} == done;
      done := done + {entry};
      total := total + 1;
      size := size + directory[entry].size;
    }
    assert done == EventFiles(directory);
    return true, total, size;
  }

  class DiskQueue {
    const maxBytes: int
    const digest: string -> string
    var directory: Directory
    var measured: bool
    var count: int
    var bytes: int
    ghost var ledger: Ledger

    ghost predicate Valid()
      reads this
    {
      && UniqueNamed(directory, digest)
      && (ledger.positive ==> PositiveSizes(directory))
      && 0 <= count
      && (measured ==> Agrees(directory, count, bytes, ledger))
    }

    /** Opens the queue on an existing directory without trusting any cached total. */
    constructor (directory: Directory, maxBytes: int, digest: string -> string)
      requires UniqueNamed(directory, digest)
      ensures Valid() && this.directory == directory && this.maxBytes == maxBytes && this.digest == digest && !measured
      ensures ledger.positive == PositiveSizes(directory)
    {
      this.directory, this.maxBytes, this.digest := directory, maxBytes, digest;
      measured, count, bytes := false, 0, 0;
      ledger := Ledger(0, false, PositiveSizes(directory));
    }

    /** Rebuilds the cached occupancy; a failed scan changes nothing. */
    method Measure(calls: Calls) returns (ok: bool)
      requires Valid()
      modifies this`measured, this`count, this`bytes, this`ledger
      ensures Valid() && ok == (calls.listed && (calls.stated || EventFiles(directory) == {}))
      ensures ok ==> measured && ledger == Scanned(old(ledger))
      ensures !ok ==> measured == old(measured) && count == old(count) && bytes == old(bytes) && ledger == old(ledger)
    {
      SizeOfNone(directory);
      if !calls.listed {
        return false;
      }
      var total, size;
      ok, total, size := Scan(directory, calls.stated);
      if !ok {
        return;
      }
      count, bytes, measured, ledger := total, size, true, Scanned(ledger);
      return true;
    }

    /** Scans only when the cached totals are not trustworthy. */
    method EnsureMeasured(calls: Calls) returns (ok: bool)
      requires Valid()
      modifies this`measured, this`count, this`bytes, this`ledger
      ensures Valid() && (ok ==> measured)
      ensures ok == (old(measured) || (calls.listed && (calls.stated || EventFiles(directory) == {})))
      ensures old(measured) ==> count == old(count) && bytes == old(bytes)
      ensures ledger == if ok && !old(measured) then Scanned(old(ledger)) else old(ledger)
    {
      if measured {
        return true;
      }
      ok := Measure(calls);
    }

    /** The occupancy is known or can be scanned. */
    static ghost predicate Measurable(wasMeasured: bool, d: Directory, calls: Calls) {
      wasMeasured || (calls.listed && (calls.stated || EventFiles(d) == {}))
    }

    /** The ledger behind a stored item, which is stored only in a measured queue. */
    static predicate Stored(wasMeasured: bool, before: Ledger, size: nat, after: Ledger) {
      after == (if wasMeasured then before else Scanned(before)).(positive := before.positive && size > 0)
    }

    /** Writes one item under a fresh name, unless it would exceed the limit. */
    method EnqueueLocked(name: FileName, size: nat, event: Event, calls: Calls) returns (r: Enqueued)
      requires Valid() && name !in directory && IsEventFile(name)
      requires name.Unique? ==> name.key == digest(event.id)
      modifies this
      ensures Valid()
      ensures directory == if r.Queued? then old(directory)[name := File(size, Some(event))] else old(directory)
      ensures r.Queued? ==> r.file == name && TotalBytes(directory) <= maxBytes
      ensures r.Full? <==> Measurable(old(measured), old(directory), calls) && TotalBytes(old(directory)) + size > maxBytes
      ensures r.Queued? <==> Measurable(old(measured), old(directory), calls) && TotalBytes(old(directory)) + size <= maxBytes
                             && calls.written && calls.renamed
      ensures old(measured) || r.Queued? ==> measured
      ensures r.Queued? ==> Stored(old(measured), old(ledger), size, ledger)
      ensures !r.Queued? ==> ledger.positive == old(ledger).positive
    {
      hide TotalBytes, EventFiles, UniqueNamed, PositiveSizes, Agrees;
      var ok := EnsureMeasured(calls);
      if !ok {
        return Refused;
      }
      ghost var file := File(size, Some(event));
      StoreKeepsAgreement(directory, name, file, count, bytes, ledger);
      AddKeepsNames(directory, name, file, digest);
      if bytes + size > maxBytes {
        return Full;
      }
      if !calls.written || !calls.renamed {
        return Refused;
      }
      if ledger.positive && size > 0 {
        AddKeepsSizes(directory, name, file);
      }
      directory := directory[name := File(size, Some(event))];
      count := count + 1;
      bytes := bytes + size;
      ledger := ledger.(positive := ledger.positive && size > 0);
      return Queued(name);
    }

    /** The queue ID in the name is newly generated. */
    method Enqueue(event: Event, nanos: nat, id: string, size: nat, calls: Calls) returns (r: Enqueued)
      requires Valid() && Timed(nanos, id) !in directory
      modifies this
      ensures Valid()
      ensures directory == if r.Queued? then old(directory)[Timed(nanos, id) := File(size, Some(event))] else old(directory)
      ensures r.Queued? ==> r.file == Timed(nanos, id) && TotalBytes(directory) <= maxBytes
      ensures r.Full? <==> Measurable(old(measured), old(directory), calls) && TotalBytes(old(directory)) + size > maxBytes
      ensures r.Queued? <==> Measurable(old(measured), old(directory), calls) && TotalBytes(old(directory)) + size <= maxBytes
                             && calls.written && calls.renamed
      ensures calls == ALL_SUCCEED && TotalBytes(old(directory)) + size <= maxBytes ==>
                r.Queued? && measured && Stored(old(measured), old(ledger), size, ledger)
      ensures old(ledger).positive && size > 0 ==> ledger.positive
      ensures ledger.positive ==> old(ledger).positive
    {
      r := EnqueueLocked(Timed(nanos, id), size, event, calls);
    }

    /** Persists an event once for a stable event ID; finding it stored already is success. */
    method EnqueueUnique(event: Event, size: nat, calls: Calls) returns (r: Enqueued)
      requires Valid()
      modifies this
      ensures Valid()
      ensures var name := Unique(digest(event.id));
              && (r.Queued? ==> r.file == name && name in directory && directory[name].content.Some?
                                && directory[name].content.value.id == event.id)
              && directory == (if r.Queued? && name !in old(directory)
                               then old(directory)[name := File(size, Some(event))] else old(directory))
              && (name !in old(directory) && r.Queued? ==> TotalBytes(directory) <= maxBytes)
      ensures var name, d := Unique(digest(event.id)), old(directory);
              && (r.Queued? <==>
                    Trim(event.id) != "" &&
                    if name in d then calls.readable && d[name].content.Some? && d[name].content.value.id == event.id
                    else Measurable(old(measured), d, calls) && TotalBytes(d) + size <= maxBytes && calls.written && calls.renamed)
              && (r.Full? <==>
                    Trim(event.id) != "" && name !in d && Measurable(old(measured), d, calls) && TotalBytes(d) + size > maxBytes)
      ensures old(ledger).positive && size > 0 ==> ledger.positive
      ensures ledger.positive ==> old(ledger).positive
    {
      if Trim(event.id) == "" {
        return Refused;
      }
      var name := Unique(digest(event.id));
      if name in directory {
        if !calls.readable {
          return Refused;
        }
        var content := directory[name].content;
        if content.None? || content.value.id != event.id {
          return Refused;
        }
        return Queued(name);
      }
      r := EnqueueLocked(name, size, event, calls);
    }

    /** Removes an item; one already gone still lowers the count, but never the byte total. */
    method Ack(item: Reference, calls: Calls) returns (ok: bool)
      requires Valid()
      modifies this
      ensures Valid()
      ensures ok == (item.Reference? && IsEventFile(item.file) && (calls.removed || item.file !in old(directory)))
      ensures directory == if ok then old(directory) - {item.file} else old(directory)
      ensures count == if ok && old(count) > 0 then old(count) - 1 else old(count)
      ensures ok ==>
                && ledger == Acknowledged(old(ledger), item.file in old(directory), old(count))
                && measured == (old(measured) && (calls.stated || item.file !in old(directory))
                                && (count == 0 ==> TotalBytes(directory) == 0))
      ensures !ok ==>
                && ledger == old(ledger)
                && measured == (old(measured) && (item.Malformed? || !IsEventFile(item.file)))
    {
      hide TotalBytes, EventFiles, UniqueNamed, PositiveSizes, Agrees, Acknowledged;
      if item.Malformed? || !IsEventFile(item.file) {
        return false;
      }
      RemoveKeepsSizes(directory, item.file);
      RemoveKeepsNames(directory, item.file, digest);
      if measured {
        AcknowledgeKeepsAgreement(directory, item.file, count, bytes, ledger);
      }
      var removed := 0;
      if item.file in directory {
        if calls.stated {
          removed := directory[item.file].size;
        } else {
          measured := false;
        }
        if !calls.removed {
          measured := false;
          return false;
        }
      }
      ledger := Acknowledged(ledger, item.file in directory, count);
      directory := directory - {item.file};
      Lower(removed);
      return true;
    }

    /** Lowers the cached totals by one item and distrusts them when they contradict each other. */
    method Lower(removed: nat)
      modifies this`count, this`bytes, this`measured
      ensures count == (if old(count) > 0 then old(count) - 1 else old(count)) && bytes == old(bytes) - removed
      ensures measured == (old(measured) && bytes >= 0 && (count == 0 ==> bytes == 0))
    {
      if count > 0 {
        count := count - 1;
      }
      bytes := bytes - removed;
      if bytes < 0 || (count == 0 && bytes != 0) {
        measured := false;
      }
    }

    /** The occupancy reported to the server. */
    method Depth(calls: Calls) returns (ok: bool, n: int, size: int)
      requires Valid()
      modifies this`measured, this`count, this`bytes, this`ledger
      ensures Valid() && ok == (old(measured) || (calls.listed && (calls.stated || EventFiles(directory) == {})))
      ensures ok ==> size == TotalBytes(directory) && n <= |EventFiles(directory)|
      ensures ok ==> (n == |EventFiles(directory)| <==> !old(measured) || old(ledger).lost == 0)
      ensures ok && old(measured) ==> n == old(count)
      ensures ledger.positive == old(ledger).positive
      ensures ok && ledger.positive ==> (n == |EventFiles(directory)| <==> !old(measured) || !old(ledger).acknowledgedTwice)
    {
      ok := EnsureMeasured(calls);
      return ok, if ok then count else 0, if ok then bytes else 0;
    }
  }

  // ----- whole runs -----

  datatype Operation =
    | Put(event: Event, nanos: nat, id: string, size: nat)
    | PutUnique(event: Event, size: nat)
    | Acknowledge(item: Reference)
    | Occupancy
    | Rescan

  /**
   Any sequence of operations, any calls failing: a measured cache has the exact
   bytes, and the exact count if and only if the acknowledgements that lowered it
   without a file are made up for; with no empty files: if and only if there were none.
   */
  method Execute(q: DiskQueue, operations: seq<(Operation, Calls)>)
    requires q.Valid()
    modifies q
    ensures q.Valid()
    ensures q.measured ==> q.bytes == TotalBytes(q.directory) && q.count <= |EventFiles(q.directory)|
    ensures q.measured ==> (q.count == |EventFiles(q.directory)| <==> q.ledger.lost == 0)
    ensures q.measured && q.ledger.positive ==> (q.count == |EventFiles(q.directory)| <==> !q.ledger.acknowledgedTwice)
    ensures old(q.ledger).positive && (forall i :: 0 <= i < |operations| ==> WritesBytes(operations[i].0)) ==> q.ledger.positive
    ensures TotalBytes(old(q.directory)) <= q.maxBytes ==> TotalBytes(q.directory) <= q.maxBytes
  {
    for i := 0 to |operations|
      invariant q.Valid()
      invariant q.ledger.positive ==> old(q.ledger).positive
      invariant old(q.ledger).positive && (forall j :: 0 <= j < i ==> WritesBytes(operations[j].0)) ==> q.ledger.positive
      invariant TotalBytes(old(q.directory)) <= q.maxBytes ==> TotalBytes(q.directory) <= q.maxBytes
    {
      Perform(q, operations[i].0, operations[i].1);
    }
  }

  /** An item is written with at least one byte, as an encoded one always has. */
  predicate WritesBytes(operation: Operation) {
    match operation
    case Put(_, _, _, size) => size > 0
    case PutUnique(_, size) => size > 0
    case _ => true
  }

  method Perform(q: DiskQueue, operation: Operation, calls: Calls)
    requires q.Valid()
    modifies q
    ensures q.Valid()
    ensures q.ledger.positive ==> old(q.ledger).positive
    ensures old(q.ledger).positive && WritesBytes(operation) ==> q.ledger.positive
    ensures TotalBytes(old(q.directory)) <= q.maxBytes ==> TotalBytes(q.directory) <= q.maxBytes
  {
    hide SizeOf;
    ghost var before := q.directory;
    match operation
    case Put(event, nanos, id, size) =>
      if Timed(nanos, id) !in q.directory {
        var _ := q.Enqueue(event, nanos, id, size, calls);
      }
    case PutUnique(event, size) => var _ := q.EnqueueUnique(event, size, calls);
    case Acknowledge(item) =>
      var ok := q.Ack(item, calls);
      if ok && item.file in before {
        TotalAfterRemove(before, item.file);
      }
      assert item.Reference? && item.file !in before ==> before - {item.file} == before;
    case Occupancy => var _, _, _ := q.Depth(calls);
    case Rescan => var _ := q.Measure(calls);
  }

  // ----- acknowledging an item twice -----

  /** Opens an empty queue and stores `n` items of one byte, numbered from 0. */
  method Filled(n: nat, event: Event, digest: string -> string) returns (q: DiskQueue)
    requires n > 0
    ensures fresh(q) && q.Valid() && q.ledger.positive && q.measured && q.ledger.lost == 0
    ensures forall i: nat :: Timed(i, "") in q.directory <==> i < n
    ensures |EventFiles(q.directory)| == TotalBytes(q.directory) == n
  {
    hide SizeOf;
    q := new DiskQueue(map[], n, digest);
    SizeOfNone(q.directory);
    assert EventFiles(q.directory) == {};
    for i := 0 to n
      invariant fresh(q) && q.Valid() && q.ledger.positive && q.maxBytes == n
      invariant i > 0 ==> q.measured && q.ledger.lost == 0
      invariant forall k: nat :: Timed(k, "") in q.directory <==> k < i
      invariant |EventFiles(q.directory)| == TotalBytes(q.directory) == i
    {
      TotalAfterAdd(q.directory, Timed(i, ""), File(1, Some(event)));
      var _ := q.Enqueue(event, i, "", 1, ALL_SUCCEED);
    }
  }

  /**
   The first of `n` items is acknowledged twice: one item too few is counted. With
   two items the count is 0, which the bytes contradict, so that the next call
   scans again; with more the wrong count stays.
   */
  method AcknowledgeFirstTwice(n: nat, event: Event, digest: string -> string) returns (q: DiskQueue, reported: int)
    requires n >= 2
    ensures fresh(q) && q.Valid() && |EventFiles(q.directory)| == n - 1
    ensures reported == if n == 2 then 1 else n - 2
  {
    hide SizeOf;
    hide TotalBytes, EventFiles;
    q := Filled(n, event, digest);
    var first := Timed(0, "");
    TotalAfterRemove(q.directory, first);
    var _ := q.Ack(Reference(first), ALL_SUCCEED);
    assert q.directory - {first} == q.directory && q.count == n - 1;
    var _ := q.Ack(Reference(first), ALL_SUCCEED);
    NoBytesMeansNoFiles(q.directory);
    var _, depth, _ := q.Depth(ALL_SUCCEED);
    return q, depth;
  }
}
