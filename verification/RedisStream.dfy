/** keystore.ts: streamAdd, streamCollect and streamTrim over one Redis stream, and the log
    consumers built on them (ee/services/audit-log/audit-log-queue.ts). */
module RedisStream {
  import opened JavaScriptNumbers
  import opened Prelude

  /** A stream id `ts-ord`, ordered lexicographically. */
  datatype Id = Id(ts: nat, ord: nat)

  datatype Entry = Entry(id: Id, fields: string)

  predicate Less(a: Id, b: Id) {
    a.ts < b.ts || (a.ts == b.ts && a.ord < b.ord)
  }

  predicate Sorted(entries: seq<Entry>) {
    forall i, j :: 0 <= i < j < |entries| ==> Less(entries[i].id, entries[j].id)
  }

  // ---------------------------------------------------------------- Redis commands

  /** How many leading entries are not newer than `id`. */
  function Past(entries: seq<Entry>, id: Id): (n: nat)
    ensures n <= |entries|
  {
    if entries == [] || Less(id, entries[0].id) then 0 else 1 + Past(entries[1..], id)
  }

  /** How many leading entries are below `id`. */
  function Below(entries: seq<Entry>, id: Id): (n: nat)
    ensures n <= |entries|
  {
    if entries == [] || !Less(entries[0].id, id) then 0 else 1 + Below(entries[1..], id)
  }

  /** XRANGE from "(cursor" or from "-" to "+" of a sorted stream, with COUNT. */
  function XRange(entries: seq<Entry>, cursor: Option<Id>, count: nat): seq<Entry> {
    var start := if cursor.None? then 0 else Past(entries, cursor.value);
    entries[start..Min(start + count, |entries|)]
  }

  /** XTRIM MINID: drops the leading entries below `minId`. */
  function XTrim(entries: seq<Entry>, minId: Id): seq<Entry> {
    entries[Below(entries, minId)..]
  }

  // ---------------------------------------------------------------- the bound of an inclusive trim

  /** The bound streamTrim computes for an inclusive trim: `${ts}-${Number(seq) + 1}`. */
  function InclusiveBound(id: Id): Id {
    Id(id.ts, Successor(id.ord))
  }

  lemma BelowInclusiveBound(a: Id, id: Id)
    requires ReachesNext(id.ord)
    ensures Less(a, InclusiveBound(id)) <==> !Less(id, a)
  {
    SuccessorAgainstNext(id.ord);
  }

  /** Exactly which sequence numbers lose entries: an inclusive trim at `id` leaves all later entries
      alone if and only if the number does not skip, which below 2^53 + 2 none does. */
  lemma TrimIsSafeExactlyWhen(id: Id)
    ensures (forall a :: Less(id, a) ==> !Less(a, InclusiveBound(id))) <==> !SkipsNext(id.ord)
  {
    SuccessorAgainstNext(id.ord);
    var next := Id(id.ts, id.ord + 1);
    assert Less(id, next);
  }

  /** And exactly for which it drops what the reader has read and nothing else. */
  lemma TrimIsInclusiveExactlyWhen(id: Id)
    ensures (forall a :: Less(a, InclusiveBound(id)) <==> !Less(id, a)) <==> ReachesNext(id.ord)
  {
    SuccessorAgainstNext(id.ord);
    var next := Id(id.ts, id.ord + 1);
    assert Less(id, next) && !Less(id, id);
    assert Less(id, InclusiveBound(id)) <==> InclusiveBound(id).ord > id.ord;
  }

  /** The first number that skips is 2^53 + 2: trimming inclusively there also drops the later entry at
      2^53 + 3. */
  lemma LargeSequenceNumbersLoseEntries()
    ensures var read := Id(0, MAX_EXACT + 2); var unread := Id(0, MAX_EXACT + 3);
            Less(read, unread) && Less(unread, InclusiveBound(read))
    ensures forall n: nat :: n < MAX_EXACT + 2 ==> !SkipsNext(n)
  {
    FirstSkip();
    forall n: nat | n < MAX_EXACT + 2 ensures !SkipsNext(n) {
      NoSmallerSkip(n);
    }
  }

  // ---------------------------------------------------------------- reading and trimming a sorted stream

  lemma {:induction false} PastSplits(entries: seq<Entry>, id: Id)
    requires Sorted(entries)
    ensures forall i :: 0 <= i < |entries| ==> (i < Past(entries, id) <==> !Less(id, entries[i].id))
  {
    if entries != [] && !Less(id, entries[0].id) {
      PastSplits(entries[1..], id);
      forall i | 0 <= i < |entries| ensures i < Past(entries, id) <==> !Less(id, entries[i].id) {
        if i > 0 {
          assert entries[1..][i - 1] == entries[i];
        }
      }
    }
  }

  /** Reading on from the last id of a prefix continues right after that prefix. */
  lemma ReadingOn(entries: seq<Entry>, n: nat)
    requires Sorted(entries) && 0 < n <= |entries|
    ensures Past(entries, entries[n - 1].id) == n
  {
    PastSplits(entries, entries[n - 1].id);
    var k := Past(entries, entries[n - 1].id);
    assert n - 1 < k;
    if n < |entries| {
      assert Less(entries[n - 1].id, entries[n].id);
    }
  }

  /** An inclusive trim drops exactly what a reader with that last id has been past. */
  lemma {:induction false} InclusiveTrimDropsThePast(entries: seq<Entry>, id: Id)
    requires ReachesNext(id.ord)
    ensures Below(entries, InclusiveBound(id)) == Past(entries, id)
  {
    if entries != [] {
      BelowInclusiveBound(entries[0].id, id);
      InclusiveTrimDropsThePast(entries[1..], id);
    }
  }

  /** A trim at a number that does not skip drops nothing a reader with that last id has still to read. */
  lemma {:induction false} SafeTrimStaysInThePast(entries: seq<Entry>, id: Id)
    requires !SkipsNext(id.ord)
    ensures Below(entries, InclusiveBound(id)) <= Past(entries, id)
  {
    if entries != [] {
      TrimIsSafeExactlyWhen(id);
      SafeTrimStaysInThePast(entries[1..], id);
    }
  }

  lemma TrimAgainstPast(entries: seq<Entry>, id: Id)
    ensures ReachesNext(id.ord) ==> Below(entries, InclusiveBound(id)) == Past(entries, id)
    ensures !SkipsNext(id.ord) ==> Below(entries, InclusiveBound(id)) <= Past(entries, id)
  {
    if ReachesNext(id.ord) {
      InclusiveTrimDropsThePast(entries, id);
    } else if !SkipsNext(id.ord) {
      SafeTrimStaysInThePast(entries, id);
    }
  }

  /** How often the reader's loop runs: Math.ceil(maxEntries / batchSize) times, for a positive batch
      size, and never for a negative limit. */
  function Pages(batchSize: int, maxEntries: int): nat
    requires batchSize >= 1
    decreases Max(0, maxEntries)
  {
    if maxEntries <= 0 then 0 else 1 + Pages(batchSize, maxEntries - batchSize)
  }

  lemma {:induction false} PagesIsCeiling(batchSize: int, maxEntries: int)
    requires batchSize >= 1
    ensures maxEntries > 0 ==>
              var p := Pages(batchSize, maxEntries); p * batchSize - batchSize < maxEntries <= p * batchSize
    decreases Max(0, maxEntries)
  {
    if maxEntries > 0 {
      PagesIsCeiling(batchSize, maxEntries - batchSize);
      var p := Pages(batchSize, maxEntries - batchSize);
      assert (1 + p) * batchSize == batchSize + p * batchSize;
    }
  }

  /** `n` whole batches. */
  function Batches(batchSize: int, n: nat): int {
    if n == 0 then 0 else Batches(batchSize, n - 1) + batchSize
  }

  /** The most streamCollect returns: whole batches, the last of which reaches `maxEntries`. */
  function Capacity(batchSize: int, maxEntries: int): nat
    requires batchSize >= 1
  {
    BatchesMonotone(batchSize, 0, Pages(batchSize, maxEntries));
    Batches(batchSize, Pages(batchSize, maxEntries))
  }

  /** The page count is the least number of whole batches that reaches `maxEntries`. */
  lemma {:induction false} PagesReachMaxEntries(batchSize: int, maxEntries: int, i: nat)
    requires batchSize >= 1
    ensures Batches(batchSize, i) >= maxEntries <==> i >= Pages(batchSize, maxEntries)
    decreases i
  {
    if maxEntries <= 0 {
      BatchesMonotone(batchSize, 0, i);
    } else if i > 0 {
      PagesReachMaxEntries(batchSize, maxEntries - batchSize, i - 1);
    }
  }

  /** A positive `maxEntries` is overshot by less than one batch. */
  lemma CapacityOvershoot(batchSize: int, maxEntries: int)
    requires batchSize >= 1
    ensures maxEntries > 0 ==> maxEntries <= Capacity(batchSize, maxEntries) < maxEntries + batchSize
    ensures maxEntries <= 0 ==> Capacity(batchSize, maxEntries) == 0
  {
    if maxEntries > 0 {
      var p := Pages(batchSize, maxEntries);
      PagesReachMaxEntries(batchSize, maxEntries, p);
      PagesReachMaxEntries(batchSize, maxEntries, p - 1);
    }
  }

  lemma {:induction false} BatchesMonotone(batchSize: int, i: nat, j: nat)
    requires batchSize >= 0 && i <= j
    ensures 0 <= Batches(batchSize, i) <= Batches(batchSize, j)
    decreases j
  {
    if i < j {
      BatchesMonotone(batchSize, i, j - 1);
    } else if i > 0 {
      BatchesMonotone(batchSize, i - 1, i - 1);
    }
  }

  /** What producers append after each of the first `n` pages. */
  function Arrived(arrivals: nat -> seq<Entry>, n: nat): seq<Entry> {
    if n == 0 then [] else Arrived(arrivals, n - 1) + arrivals(n - 1)
  }

  lemma OneMoreArrival(start: seq<Entry>, arrivals: nat -> seq<Entry>, n: nat)
    requires forall k: nat :: Sorted(start + Arrived(arrivals, k))
    ensures start + Arrived(arrivals, n + 1) == start + Arrived(arrivals, n) + arrivals(n)
    ensures Sorted(start + Arrived(arrivals, n) + arrivals(n))
  {
    assert start + Arrived(arrivals, n + 1) == start + Arrived(arrivals, n) + arrivals(n);
  }

  /** The next of the pages still to read fits the capacity, and reaches `maxEntries` only if it is the
      last. */
  lemma PageFits(batchSize: int, maxEntries: int, i: nat)
    requires batchSize >= 1 && i < Pages(batchSize, maxEntries)
    ensures 0 <= Batches(batchSize, i) < Batches(batchSize, i) + batchSize == Batches(batchSize, i + 1)
    ensures Batches(batchSize, i + 1) <= Capacity(batchSize, maxEntries)
    ensures i + 1 == Pages(batchSize, maxEntries) <==> Batches(batchSize, i + 1) == Capacity(batchSize, maxEntries)
    ensures Batches(batchSize, i + 1) >= maxEntries <==> i + 1 == Pages(batchSize, maxEntries)
  {
    BatchesMonotone(batchSize, 0, i);
    BatchesMonotone(batchSize, i + 1, Pages(batchSize, maxEntries));
    PagesReachMaxEntries(batchSize, maxEntries, i + 1);
    if i + 1 < Pages(batchSize, maxEntries) {
      BatchesMonotone(batchSize, i + 2, Pages(batchSize, maxEntries));
    }
  }

  function LastOf(entries: seq<Entry>): Option<Id> {
    if entries == [] then None else Some(entries[|entries| - 1].id)
  }

  /** One page: after a prefix has been read, the next page extends it by up to `count` entries. */
  lemma NextPage(entries: seq<Entry>, read: seq<Entry>, count: nat)
    requires Sorted(entries) && read <= entries
    ensures var batch := XRange(entries, LastOf(read), count);
            && |batch| == Min(count, |entries| - |read|)
            && read + batch <= entries
            && (batch != [] ==> LastOf(read + batch) == LastOf(batch))
  {
    if read != [] {
      ReadingOn(entries, |read|);
    }
    var batch := XRange(entries, LastOf(read), count);
    assert read + batch == entries[..|read| + |batch|];
  }

  lemma SortedExtension(entries: seq<Entry>, entry: Entry)
    requires Sorted(entries) && (entries != [] ==> Less(entries[|entries| - 1].id, entry.id))
    ensures Sorted(entries + [entry])
  {
    forall i | 0 <= i < |entries| ensures Less(entries[i].id, entry.id) {
      assert i < |entries| - 1 ==> Less(entries[i].id, entries[|entries| - 1].id);
    }
  }

  lemma SortedSuffix(entries: seq<Entry>, n: nat)
    requires Sorted(entries) && n <= |entries|
    ensures Sorted(entries[n..])
    ensures n < |entries| ==> entries[n..][|entries| - n - 1] == entries[|entries| - 1]
    ensures n == 0 ==> entries[n..] == entries
  {
  }

  lemma PrefixOfLength(all: seq<Entry>, prefix: seq<Entry>, n: nat)
    requires prefix <= all && |prefix| == Min(|all|, n)
    ensures prefix == all[..Min(|all|, n)]
  {
  }

  class Stream {
    var entries: seq<Entry>
    var lastGeneratedId: Id

    ghost predicate Valid()
      reads this
    {
      && Sorted(entries)
      && (entries != [] ==> !Less(lastGeneratedId, entries[|entries| - 1].id))
    }

    constructor ()
      ensures Valid() && entries == []
    {
      entries := [];
      lastGeneratedId := Id(0, 0);
    }

    /** XADD MAXLEN ~ maxLen: refuses an id that is not newer than every id so far. The approximate
        trimming may leave the oldest `surplus` entries beyond the cap in place or drop some. */
    method StreamAdd(id: Id, fields: string, maxLen: nat, dropped: nat) returns (added: bool)
      requires Valid()
      requires dropped <= Max(0, |entries| + 1 - maxLen)
      modifies this
      ensures Valid()
      ensures added <==> Less(old(lastGeneratedId), id)
      ensures added ==> lastGeneratedId == id && entries == (old(entries) + [Entry(id, fields)])[dropped..]
      ensures added && |old(entries)| < maxLen ==> entries == old(entries) + [Entry(id, fields)]
      ensures !added ==> lastGeneratedId == old(lastGeneratedId) && entries == old(entries)
    {
      added := Less(lastGeneratedId, id);
      if added {
        SortedExtension(entries, Entry(id, fields));
        SortedSuffix(entries + [Entry(id, fields)], dropped);
        entries := (entries + [Entry(id, fields)])[dropped..];
        lastGeneratedId := id;
      }
    }

    /** Producers append while a reader is between two pages. */
    method Append(more: seq<Entry>)
      requires Valid() && Sorted(entries + more)
      modifies this
      ensures Valid() && entries == old(entries) + more
    {
      entries := entries + more;
      if entries != [] {
        lastGeneratedId := entries[|entries| - 1].id;
      }
    }

    method StreamTrim(minId: Id, inclusive: bool) returns (removed: nat)
      requires Valid()
      modifies this`entries
      ensures Valid()
      ensures removed == Below(old(entries), if inclusive then InclusiveBound(minId) else minId)
      ensures entries == old(entries)[removed..]
      ensures inclusive && ReachesNext(minId.ord) ==> removed == Past(old(entries), minId)
      ensures inclusive && !SkipsNext(minId.ord) ==> removed <= Past(old(entries), minId)
    {
      var id := minId;
      if inclusive {
        id := InclusiveBound(minId);
      }
      removed := Below(entries, id);
      TrimAgainstPast(entries, minId);
      SortedSuffix(entries, Below(entries, id));
      entries := XTrim(entries, id);
    }

    /** One page of the reader below, and what it adds to the entries read so far. */
    method ReadPage(read: seq<Entry>, cursor: Option<Id>, batchSize: int)
      returns (allEntries: seq<Entry>, lastId: Option<Id>, batchLength: nat)
      requires Valid() && read <= entries && cursor == LastOf(read) && batchSize >= 1
      ensures allEntries <= entries && |allEntries| == |read| + batchLength
      ensures batchLength == Min(batchSize, |entries| - |read|)
      ensures lastId == LastOf(allEntries)
    {
      NextPage(entries, read, batchSize);
      var batch := XRange(entries, cursor, batchSize);
      allEntries, batchLength := read + batch, |batch|;
      if batch == [] {
        assert allEntries == read;
        lastId := cursor;
      } else {
        lastId := Some(batch[|batch| - 1].id);
      }
    }

    /** What producers append after the i-th page. */
    method Arrive(ghost start: seq<Entry>, arrivals: nat -> seq<Entry>, i: nat)
      requires Valid() && entries == start + Arrived(arrivals, i)
      requires forall n: nat :: Sorted(start + Arrived(arrivals, n))
      modifies this
      ensures Valid() && entries == start + Arrived(arrivals, i + 1)
      ensures old(entries) <= entries
    {
      OneMoreArrival(start, arrivals, i);
      Append(arrivals(i));
    }

    /** The paginated reader. Whatever is appended between its pages, the result is exactly the prefix of
        the stream as it is when the reader returns that fills the capacity, or all of it: nothing that
        was there at the start is missed, and nothing is read twice. */
    method StreamCollect(batchSize: int, maxEntries: int, arrivals: nat -> seq<Entry>)
      returns (allEntries: seq<Entry>, lastId: Option<Id>, ghost pages: nat)
      requires Valid() && batchSize >= 1
      requires forall n: nat :: Sorted(entries + Arrived(arrivals, n))
      modifies this
      ensures Valid() && entries == old(entries) + Arrived(arrivals, pages)
      ensures allEntries == entries[..Min(|entries|, Capacity(batchSize, maxEntries))]
      ensures lastId == LastOf(allEntries)
    {
      lastId := None;
      allEntries := [];
      pages := 0;
      var i := 0;
      assert old(entries) + Arrived(arrivals, 0) == old(entries);
      while i < Pages(batchSize, maxEntries)
        invariant 0 <= i <= Pages(batchSize, maxEntries) && pages == i
        invariant Valid() && entries == old(entries) + Arrived(arrivals, i)
        invariant |allEntries| == Batches(batchSize, i) && allEntries <= entries
        invariant lastId == LastOf(allEntries)
        decreases Pages(batchSize, maxEntries) - i
      {
        PageFits(batchSize, maxEntries, i);
        var batchLength;
        allEntries, lastId, batchLength := ReadPage(allEntries, lastId, batchSize);
        if batchLength == 0 {
          break;
        }
        if |allEntries| >= maxEntries || batchLength < batchSize {
          break;
        }
        Arrive(old(entries), arrivals, i);
        i := i + 1;
        pages := i;
      }
      PrefixOfLength(entries, allEntries, Capacity(batchSize, maxEntries));
    }
  }

  // ---------------------------------------------------------------- log consumers

  /** A consumer reads page by page, persists what it read, and trims inclusively at the last id it
      read. A crash or a failed insert sends it back to Off at any point. If it crashes after sending the
      trim, the trim may still land, at any later time or never. */
  datatype Consumer =
    | Off
    | Reading(batch: seq<Entry>)
    | Persisted(batch: seq<Entry>)

  /** `appended` is everything ever added, of which the first `gone` entries have left the stream;
      `persisted` is what some consumer inserted into the log; `evicted` what the cap dropped;
      `inFlight` are the batches whose trim was sent by a consumer that crashed. `acknowledged` lists, for
      one trim after the other, the entries of the batch that were still in the stream. */
  datatype State = State(appended: seq<Entry>, gone: nat, persisted: set<Entry>, evicted: set<Entry>,
                         consumers: seq<Consumer>, inFlight: set<seq<Entry>>, acknowledged: seq<Entry>)

  function Remaining(s: State): seq<Entry>
    requires s.gone <= |s.appended|
  {
    s.appended[s.gone..]
  }

  datatype Step =
    | Add(entry: Entry, dropped: nat)
    | ReadPage(c: nat, count: nat)
    | Persist(c: nat)
    | Trim(c: nat)
    | Reset(c: nat)
    | CrashInTrim(c: nat)
    | LateTrim(batch: seq<Entry>)

  predicate Enabled(maxLen: nat, s: State, step: Step) {
    && s.gone <= |s.appended|
    && match step
       case Add(entry, dropped) =>
         && (s.appended != [] ==> Less(s.appended[|s.appended| - 1].id, entry.id))
         && entry.id.ord < MAX_EXACT
         && dropped <= Max(0, |s.appended| + 1 - s.gone - maxLen)
       case ReadPage(c, _) => c < |s.consumers| && !s.consumers[c].Persisted?
       case Persist(c) => c < |s.consumers| && s.consumers[c].Reading? && s.consumers[c].batch != []
       case Trim(c) => c < |s.consumers| && s.consumers[c].Persisted? && s.consumers[c].batch != []
       case Reset(c) => c < |s.consumers|
       case CrashInTrim(c) => c < |s.consumers| && s.consumers[c].Persisted? && s.consumers[c].batch != []
       case LateTrim(batch) => batch in s.inFlight && batch != []
  }

  function BatchOf(c: Consumer): seq<Entry> {
    if c.Off? then [] else c.batch
  }

  /** The entries of the batch that are still in the stream. */
  function StillThere(batch: seq<Entry>, rem: seq<Entry>): seq<Entry> {
    if batch == [] then []
    else (if batch[0] in rem then [batch[0]] else []) + StillThere(batch[1..], rem)
  }

  /** An inclusive trim at the last id of a batch lands. */
  function Trimmed(s: State, batch: seq<Entry>): State
    requires s.gone <= |s.appended| && batch != []
  {
    s.(gone := s.gone + Below(Remaining(s), InclusiveBound(batch[|batch| - 1].id)),
       acknowledged := s.acknowledged + StillThere(batch, Remaining(s)))
  }

  function Apply(maxLen: nat, s: State, step: Step): State
    requires Enabled(maxLen, s, step)
  {
    match step
    case Add(entry, dropped) =>
      s.(appended := s.appended + [entry],
         gone := s.gone + dropped,
         evicted := s.evicted + Elements((s.appended + [entry])[s.gone..s.gone + dropped]))
    case ReadPage(c, count) =>
      var batch := BatchOf(s.consumers[c]);
      s.(consumers := s.consumers[c := Reading(batch + XRange(Remaining(s), LastOf(batch), count))])
    case Persist(c) =>
      var batch := s.consumers[c].batch;
      s.(persisted := s.persisted + Elements(batch), consumers := s.consumers[c := Persisted(batch)])
    case Trim(c) => Trimmed(s, s.consumers[c].batch).(consumers := s.consumers[c := Off])
    case Reset(c) => s.(consumers := s.consumers[c := Off])
    case CrashInTrim(c) =>
      s.(consumers := s.consumers[c := Off], inFlight := s.inFlight + {s.consumers[c].batch})
    case LateTrim(batch) => Trimmed(s, batch).(inFlight := s.inFlight - {batch})
  }

  ghost predicate Next(maxLen: nat, s: State, t: State) {
    exists step :: Enabled(maxLen, s, step) && t == Apply(maxLen, s, step)
  }

  ghost predicate IsRun(maxLen: nat, run: seq<State>) {
    && run != []
    && run[0] == State([], 0, {}, {}, run[0].consumers, {}, [])
    && (forall c :: 0 <= c < |run[0].consumers| ==> run[0].consumers[c].Off?)
    && forall k, l :: 0 <= k && l == k + 1 && l < |run| ==> Next(maxLen, run[k], run[l])
  }

  predicate Accounted(s: State, e: Entry) {
    e in s.persisted || e in s.evicted
  }

  /** Every entry up to `last` is in the batch, except what has left the stream and is already safe. */
  predicate Covers(s: State, batch: seq<Entry>, last: Id)
    requires s.gone <= |s.appended|
  {
    forall k :: 0 <= k < |s.appended| && !Less(last, s.appended[k].id) ==>
      s.appended[k] in batch || (k < s.gone && Accounted(s, s.appended[k]))
  }

  predicate AllAppended(s: State, batch: seq<Entry>) {
    forall e :: e in batch ==> e in s.appended && e.id.ord < MAX_EXACT
  }

  /** A consumer has read everything up to the last id it read, except what is already safe. */
  predicate BatchOk(s: State, batch: seq<Entry>)
    requires s.gone <= |s.appended|
  {
    && Sorted(batch)
    && AllAppended(s, batch)
    && (batch != [] ==> Covers(s, batch, batch[|batch| - 1].id))
  }

  /** Every entry that left the stream is in the log or was dropped by the cap. */
  ghost predicate StreamOk(s: State) {
    && s.gone <= |s.appended|
    && Sorted(s.appended)
    && (forall k :: 0 <= k < |s.appended| ==> s.appended[k].id.ord < MAX_EXACT)
    && (forall k :: 0 <= k < s.gone ==> Accounted(s, s.appended[k]))
    && (forall e :: e in s.persisted ==> e in s.appended)
  }

  /** A batch whose trim may land: complete and persisted. */
  predicate MayBeTrimmed(s: State, batch: seq<Entry>)
    requires s.gone <= |s.appended|
  {
    BatchOk(s, batch) && Elements(batch) <= s.persisted
  }

  ghost predicate Inv(s: State) {
    && StreamOk(s)
    && (forall batch :: batch in s.inFlight ==> MayBeTrimmed(s, batch))
    && (forall c :: 0 <= c < |s.consumers| ==> BatchOk(s, BatchOf(s.consumers[c])))
    && (forall c :: 0 <= c < |s.consumers| && s.consumers[c].Persisted? ==>
          Elements(s.consumers[c].batch) <= s.persisted)
  }

  /** Entries of a sorted sequence that come after all of a sorted batch extend it in order. */
  lemma SortedAppend(batch: seq<Entry>, page: seq<Entry>)
    requires Sorted(batch) && Sorted(page)
    requires batch != [] && page != [] ==> Less(batch[|batch| - 1].id, page[0].id)
    ensures Sorted(batch + page)
  {
    forall i, j | 0 <= i < |batch| && 0 <= j < |page| ensures Less(batch[i].id, page[j].id) {
      assert i < |batch| - 1 ==> Less(batch[i].id, batch[|batch| - 1].id);
      assert 0 < j ==> Less(page[0].id, page[j].id);
    }
  }

  lemma Stretch(all: seq<Entry>, gone: nat, start: nat, end: nat)
    requires gone <= |all| && start <= end <= |all| - gone
    ensures all[gone..][start..end] == all[gone + start..gone + end]
  {
  }

  /** Everything before the page that is still in the stream was already in the batch. */
  lemma BeforeThePage(s: State, batch: seq<Entry>, i: nat)
    requires StreamOk(s) && BatchOk(s, batch) && batch != []
    requires i < |Remaining(s)| && !Less(batch[|batch| - 1].id, Remaining(s)[i].id)
    ensures s.appended[s.gone + i] in batch
  {
    assert Remaining(s)[i] == s.appended[s.gone + i];
  }

  /** The page read after `batch` is a stretch of the history, and everything before it that is
      still in the stream was already in the batch. */
  lemma PageIsStretch(s: State, batch: seq<Entry>, count: nat) returns (from: nat, to: nat)
    requires StreamOk(s) && BatchOk(s, batch)
    ensures s.gone <= from <= to <= |s.appended|
    ensures XRange(Remaining(s), LastOf(batch), count) == s.appended[from..to]
    ensures forall k :: s.gone <= k < from ==> s.appended[k] in batch
    ensures batch != [] && from < |s.appended| ==> Less(batch[|batch| - 1].id, s.appended[from].id)
  {
    var rem := Remaining(s);
    var start := if batch == [] then 0 else Past(rem, batch[|batch| - 1].id);
    var end := Min(start + count, |rem|);
    from, to := s.gone + start, s.gone + end;
    Stretch(s.appended, s.gone, start, end);
    if batch != [] {
      SortedSuffix(s.appended, s.gone);
      PastSplits(rem, batch[|batch| - 1].id);
      forall k | s.gone <= k < from ensures s.appended[k] in batch {
        BeforeThePage(s, batch, k - s.gone);
      }
      if from < |s.appended| {
        assert s.appended[from] == rem[start];
      }
    }
  }

  lemma StretchCovers(s: State, batch: seq<Entry>, from: nat, to: nat)
    requires StreamOk(s) && s.gone <= from < to <= |s.appended|
    requires forall k :: s.gone <= k < from ==> s.appended[k] in batch
    ensures Covers(s, batch + s.appended[from..to], s.appended[to - 1].id)
  {
    var page := s.appended[from..to];
    forall k | 0 <= k < |s.appended| && !Less(s.appended[to - 1].id, s.appended[k].id)
      ensures s.appended[k] in batch + page || (k < s.gone && Accounted(s, s.appended[k]))
    {
      assert k < to;
      if k >= from {
        assert page[k - from] == s.appended[k];
      }
    }
  }

  lemma StretchIsAppended(s: State, batch: seq<Entry>, from: nat, to: nat)
    requires StreamOk(s) && s.gone <= from <= to <= |s.appended|
    requires AllAppended(s, batch)
    ensures AllAppended(s, batch + s.appended[from..to])
  {
  }

  /** Reading one more page keeps the promise for the longer batch. */
  lemma StretchKeepsBatch(s: State, batch: seq<Entry>, from: nat, to: nat)
    requires StreamOk(s) && BatchOk(s, batch) && s.gone <= from < to <= |s.appended|
    requires forall k :: s.gone <= k < from ==> s.appended[k] in batch
    requires batch != [] ==> Less(batch[|batch| - 1].id, s.appended[from].id)
    ensures BatchOk(s, batch + s.appended[from..to])
  {
    var page := s.appended[from..to];
    SortedAppend(batch, page);
    StretchCovers(s, batch, from, to);
    StretchIsAppended(s, batch, from, to);
    assert LastOf(batch + page).value == s.appended[to - 1].id;
  }

  lemma PageKeepsBatch(s: State, batch: seq<Entry>, count: nat)
    requires StreamOk(s) && BatchOk(s, batch)
    ensures BatchOk(s, batch + XRange(Remaining(s), LastOf(batch), count))
  {
    var from, to := PageIsStretch(s, batch, count);
    if from == to {
      assert batch + s.appended[from..to] == batch;
    } else {
      StretchKeepsBatch(s, batch, from, to);
    }
  }

  /** A longer history, more entries gone, persisted or evicted: other batches stay complete. */
  lemma OthersKeepBatch(s: State, t: State, batch: seq<Entry>)
    requires StreamOk(s) && StreamOk(t) && BatchOk(s, batch)
    requires s.appended <= t.appended && s.gone <= t.gone
    requires s.persisted <= t.persisted && s.evicted <= t.evicted
    ensures BatchOk(t, batch)
  {
    if batch != [] {
      var last := batch[|batch| - 1];
      assert last in batch;
      var m :| 0 <= m < |s.appended| && s.appended[m] == last;
      forall k | 0 <= k < |t.appended| && !Less(last.id, t.appended[k].id)
        ensures t.appended[k] in batch || (k < t.gone && Accounted(t, t.appended[k]))
      {
        assert t.appended[m] == last;
        assert k <= m;
        assert t.appended[k] == s.appended[k];
      }
    }
    forall e | e in batch ensures e in t.appended {
      var k :| 0 <= k < |s.appended| && s.appended[k] == e;
      assert t.appended[k] == e;
    }
  }

  lemma StillIn(e: Entry, all: seq<Entry>, more: seq<Entry>)
    requires e in all && all <= more
    ensures e in more
  {
    var k :| 0 <= k < |all| && all[k] == e;
    assert more[k] == e;
  }

  /** What the cap drops is recorded as dropped. */
  lemma EvictionsAreAccounted(s: State, t: State, dropped: nat, k: nat)
    requires s.gone <= |s.appended| <= |t.appended| && s.gone + dropped <= |t.appended|
    requires s.evicted + Elements(t.appended[s.gone..s.gone + dropped]) <= t.evicted
    requires s.gone <= k < s.gone + dropped
    ensures Accounted(t, t.appended[k])
  {
    assert t.appended[s.gone..s.gone + dropped][k - s.gone] == t.appended[k];
  }

  lemma AddKeepsStream(maxLen: nat, s: State, step: Step)
    requires Inv(s) && Enabled(maxLen, s, step) && step.Add?
    ensures StreamOk(Apply(maxLen, s, step))
  {
    var t := Apply(maxLen, s, step);
    SortedExtension(s.appended, step.entry);
    forall k | 0 <= k < t.gone ensures Accounted(t, t.appended[k]) {
      if k < s.gone {
        assert Accounted(s, s.appended[k]);
      } else {
        EvictionsAreAccounted(s, t, step.dropped, k);
      }
    }
    forall e | e in t.persisted ensures e in t.appended {
      StillIn(e, s.appended, t.appended);
    }
  }

  lemma LastIsExact(s: State, batch: seq<Entry>)
    requires s.gone <= |s.appended| && BatchOk(s, batch) && batch != []
    ensures ReachesNext(batch[|batch| - 1].id.ord)
  {
    assert batch[|batch| - 1] in batch;
  }

  /** What a trim removes was read and persisted by the consumer that sent it. */
  lemma RemovedIsPersisted(s: State, batch: seq<Entry>, i: nat)
    requires StreamOk(s) && MayBeTrimmed(s, batch) && batch != []
    requires i < Below(Remaining(s), InclusiveBound(batch[|batch| - 1].id))
    ensures Remaining(s)[i] in s.persisted
  {
    var last := batch[|batch| - 1].id;
    var rem := Remaining(s);
    LastIsExact(s, batch);
    InclusiveTrimDropsThePast(rem, last);
    SortedSuffix(s.appended, s.gone);
    PastSplits(rem, last);
    assert rem[i] == s.appended[s.gone + i];
    assert rem[i] in Elements(batch);
  }

  lemma PersistedMayGo(s: State, t: State)
    requires StreamOk(s) && s.gone <= t.gone <= |s.appended|
    requires t.appended == s.appended && t.persisted == s.persisted && t.evicted == s.evicted
    requires forall k :: s.gone <= k < t.gone ==> s.appended[k] in s.persisted
    ensures StreamOk(t)
  {
    forall k | 0 <= k < t.gone ensures Accounted(t, t.appended[k]) {
      assert k < s.gone ==> Accounted(s, s.appended[k]);
    }
  }

  lemma TrimKeepsStream(s: State, batch: seq<Entry>)
    requires StreamOk(s) && MayBeTrimmed(s, batch) && batch != []
    ensures StreamOk(Trimmed(s, batch))
  {
    var t := Trimmed(s, batch);
    forall k | s.gone <= k < t.gone ensures s.appended[k] in s.persisted {
      RemovedIsPersisted(s, batch, k - s.gone);
      assert Remaining(s)[k - s.gone] == s.appended[k];
    }
    PersistedMayGo(s, t);
  }

  lemma PersistedMayBeTrimmed(s: State, c: nat)
    requires Inv(s) && c < |s.consumers| && s.consumers[c].Persisted?
    ensures MayBeTrimmed(s, s.consumers[c].batch)
  {
    assert BatchOk(s, BatchOf(s.consumers[c]));
  }

  lemma StepKeepsStream(maxLen: nat, s: State, step: Step)
    requires Inv(s) && Enabled(maxLen, s, step)
    ensures StreamOk(Apply(maxLen, s, step))
  {
    if step.Add? {
      AddKeepsStream(maxLen, s, step);
    } else if step.Trim? {
      PersistedMayBeTrimmed(s, step.c);
      TrimKeepsStream(s, s.consumers[step.c].batch);
    } else if step.LateTrim? {
      TrimKeepsStream(s, step.batch);
    } else if step.Persist? {
      assert BatchOk(s, BatchOf(s.consumers[step.c]));
    }
  }

  lemma ReadKeepsBatch(maxLen: nat, s: State, step: Step)
    requires Inv(s) && Enabled(maxLen, s, step) && step.ReadPage?
    ensures var t := Apply(maxLen, s, step); BatchOk(s, BatchOf(t.consumers[step.c]))
  {
    assert BatchOk(s, BatchOf(s.consumers[step.c]));
    PageKeepsBatch(s, BatchOf(s.consumers[step.c]), step.count);
  }

  /** Apart from reading, a step leaves a consumer its batch or takes it away. */
  lemma BatchStaysOrGoes(maxLen: nat, s: State, step: Step, c: nat)
    requires Enabled(maxLen, s, step) && c < |s.consumers| && !(step.ReadPage? && step.c == c)
    ensures var batch := BatchOf(Apply(maxLen, s, step).consumers[c]);
            batch == BatchOf(s.consumers[c]) || batch == []
  {
  }

  lemma StepOnlyAdds(maxLen: nat, s: State, step: Step)
    requires Enabled(maxLen, s, step)
    ensures var t := Apply(maxLen, s, step);
            s.appended <= t.appended && s.gone <= t.gone && s.persisted <= t.persisted && s.evicted <= t.evicted
  {
  }

  lemma StepKeepsBatches(maxLen: nat, s: State, step: Step, c: nat)
    requires Inv(s) && Enabled(maxLen, s, step) && c < |s.consumers|
    requires StreamOk(Apply(maxLen, s, step))
    ensures var t := Apply(maxLen, s, step); BatchOk(t, BatchOf(t.consumers[c]))
  {
    var t := Apply(maxLen, s, step);
    if step.ReadPage? && step.c == c {
      ReadKeepsBatch(maxLen, s, step);
    } else {
      assert BatchOk(s, BatchOf(s.consumers[c]));
      BatchStaysOrGoes(maxLen, s, step, c);
    }
    StepOnlyAdds(maxLen, s, step);
    OthersKeepBatch(s, t, BatchOf(t.consumers[c]));
  }

  lemma StepKeepsInFlight(maxLen: nat, s: State, step: Step, batch: seq<Entry>)
    requires Inv(s) && Enabled(maxLen, s, step) && StreamOk(Apply(maxLen, s, step))
    requires batch in Apply(maxLen, s, step).inFlight
    ensures MayBeTrimmed(Apply(maxLen, s, step), batch)
  {
    if batch !in s.inFlight {
      PersistedMayBeTrimmed(s, step.c);
    }
    StepOnlyAdds(maxLen, s, step);
    OthersKeepBatch(s, Apply(maxLen, s, step), batch);
  }

  lemma StepKeepsInv(maxLen: nat, s: State, step: Step)
    requires Inv(s) && Enabled(maxLen, s, step)
    ensures Inv(Apply(maxLen, s, step))
  {
    var t := Apply(maxLen, s, step);
    StepKeepsStream(maxLen, s, step);
    forall c | 0 <= c < |t.consumers| ensures BatchOk(t, BatchOf(t.consumers[c])) {
      StepKeepsBatches(maxLen, s, step, c);
    }
    forall batch | batch in t.inFlight ensures MayBeTrimmed(t, batch) {
      StepKeepsInFlight(maxLen, s, step, batch);
    }
  }

  lemma {:induction false} RunInvariant(maxLen: nat, run: seq<State>, k: nat)
    requires IsRun(maxLen, run) && k < |run|
    ensures Inv(run[k])
  {
    if k > 0 {
      RunInvariant(maxLen, run, k - 1);
      assert Next(maxLen, run[k - 1], run[k]);
      var step :| Enabled(maxLen, run[k - 1], step) && run[k] == Apply(maxLen, run[k - 1], step);
      StepKeepsInv(maxLen, run[k - 1], step);
    } else {
      forall c | 0 <= c < |run[0].consumers| ensures BatchOk(run[0], BatchOf(run[0].consumers[c])) {}
    }
  }

  /** At no moment of the run does the stream exceed the cap. */
  ghost predicate WithinCap(maxLen: nat, run: seq<State>) {
    forall k :: 0 <= k < |run| && run[k].gone <= |run[k].appended| ==> |Remaining(run[k])| < maxLen
  }

  lemma {:induction false} NothingEvictedWithinCap(maxLen: nat, run: seq<State>, k: nat)
    requires IsRun(maxLen, run) && WithinCap(maxLen, run) && k < |run|
    ensures run[k].evicted == {}
  {
    if k > 0 {
      NothingEvictedWithinCap(maxLen, run, k - 1);
      RunInvariant(maxLen, run, k - 1);
      assert Next(maxLen, run[k - 1], run[k]);
    }
  }

  /** No loss, for any number of overlapping consumers, crashes and failed inserts. What was
      appended is what left the stream followed by what remains, in order. Everything that left it
      was persisted or fell to the cap, and while the backlog keeps within the cap everything that
      left it was persisted. Nothing is persisted that was not appended. */
  lemma NoEntryIsLost(maxLen: nat, run: seq<State>, k: nat)
    requires IsRun(maxLen, run) && k < |run|
    ensures var s := run[k];
            && s.gone <= |s.appended| && s.appended == s.appended[..s.gone] + Remaining(s)
            && (forall e :: e in s.appended[..s.gone] ==> e in s.persisted || e in s.evicted)
            && (WithinCap(maxLen, run) ==> forall e :: e in s.appended[..s.gone] ==> e in s.persisted)
            && (forall e :: e in s.persisted ==> e in s.appended)
  {
    RunInvariant(maxLen, run, k);
    if WithinCap(maxLen, run) {
      NothingEvictedWithinCap(maxLen, run, k);
    }
  }

  // ---------------------------------------------------------------- each entry is acknowledged once

  lemma FirstIsIn(a: seq<Entry>)
    ensures a != [] ==> a[0] in a
  {
  }

  lemma {:induction false} SortedAreEqual(a: seq<Entry>, b: seq<Entry>)
    requires Sorted(a) && Sorted(b) && forall e :: e in a <==> e in b
    ensures a == b
    decreases |a|
  {
    FirstIsIn(b);
    if a != [] {
      SameFirst(a, b);
      SameRest(a, b);
      SortedAreEqual(a[1..], b[1..]);
    }
  }

  lemma SameFirst(a: seq<Entry>, b: seq<Entry>)
    requires Sorted(a) && Sorted(b) && a != [] && forall e :: e in a <==> e in b
    ensures b != [] && a[0] == b[0]
  {
    assert a[0] in b && b[0] in a;
    var i :| 0 <= i < |b| && b[i] == a[0];
    var j :| 0 <= j < |a| && a[j] == b[0];
  }

  lemma InTheRest(a: seq<Entry>, e: Entry)
    requires Sorted(a) && a != []
    ensures e in a[1..] <==> e in a && e != a[0]
    ensures Sorted(a[1..])
  {
    assert a == [a[0]] + a[1..];
    assert a[0] !in a[1..];
  }

  lemma SameRest(a: seq<Entry>, b: seq<Entry>)
    requires Sorted(a) && Sorted(b) && a != [] && b != [] && a[0] == b[0]
    requires forall e :: e in a <==> e in b
    ensures Sorted(a[1..]) && Sorted(b[1..])
    ensures forall e :: e in a[1..] <==> e in b[1..]
  {
    forall e ensures e in a[1..] <==> e in b[1..] {
      InTheRest(a, e);
      InTheRest(b, e);
    }
    InTheRest(a, a[0]);
    InTheRest(b, b[0]);
  }

  lemma {:induction false} StillThereIsThePart(batch: seq<Entry>, rem: seq<Entry>)
    requires Sorted(batch)
    ensures forall e :: e in StillThere(batch, rem) <==> e in batch && e in rem
    ensures Sorted(StillThere(batch, rem))
    decreases |batch|
  {
    if batch != [] {
      StillThereIsThePart(batch[1..], rem);
      var part := StillThere(batch[1..], rem);
      assert batch == [batch[0]] + batch[1..];
      forall i | 0 <= i < |part| ensures Less(batch[0].id, part[i].id) {
        assert part[i] in batch[1..];
      }
    }
  }

  /** The trim of a complete batch removes, in order, exactly the entries of the batch that are still in
      the stream. */
  lemma TrimRemovesThePart(s: State, batch: seq<Entry>)
    requires StreamOk(s) && BatchOk(s, batch) && batch != []
    ensures var n := Below(Remaining(s), InclusiveBound(batch[|batch| - 1].id));
            StillThere(batch, Remaining(s)) == Remaining(s)[..n]
  {
    var rem, last := Remaining(s), batch[|batch| - 1].id;
    LastIsExact(s, batch);
    InclusiveTrimDropsThePast(rem, last);
    PastSplits(rem, last);
    StillThereIsThePart(batch, rem);
    PartIsPrefix(s, batch, Past(rem, last));
    SortedAreEqual(StillThere(batch, rem), rem[..Past(rem, last)]);
  }

  lemma PartIsPrefix(s: State, batch: seq<Entry>, n: nat)
    requires StreamOk(s) && BatchOk(s, batch) && batch != [] && n <= |Remaining(s)|
    requires var rem := Remaining(s);
             forall i :: 0 <= i < |rem| ==> (i < n <==> !Less(batch[|batch| - 1].id, rem[i].id))
    ensures Sorted(Remaining(s)[..n])
    ensures forall e :: e in Remaining(s)[..n] <==> e in batch && e in Remaining(s)
  {
    var rem, last := Remaining(s), batch[|batch| - 1].id;
    forall i | 0 <= i < n ensures rem[i] in batch {
      assert rem[i] == s.appended[s.gone + i];
    }
    forall e | e in batch && e in rem ensures e in rem[..n] {
      var i :| 0 <= i < |rem| && rem[i] == e;
      NotAfterTheLast(batch, e);
      assert rem[..n][i] == e;
    }
  }

  lemma NotAfterTheLast(batch: seq<Entry>, e: Entry)
    requires Sorted(batch) && e in batch
    ensures !Less(batch[|batch| - 1].id, e.id)
  {
    var i :| 0 <= i < |batch| && batch[i] == e;
  }

  /** Everything that left the stream was acknowledged, in order and once. */
  ghost predicate AllAcknowledged(s: State) {
    s.gone <= |s.appended| && s.acknowledged == s.appended[..s.gone]
  }

  lemma TakeFurther(all: seq<Entry>, gone: nat, n: nat)
    requires gone + n <= |all|
    ensures all[..gone + n] == all[..gone] + all[gone..][..n]
  {
  }

  lemma TrimAcknowledges(s: State, batch: seq<Entry>)
    requires StreamOk(s) && BatchOk(s, batch) && batch != [] && AllAcknowledged(s)
    ensures AllAcknowledged(Trimmed(s, batch))
  {
    TrimRemovesThePart(s, batch);
    TakeFurther(s.appended, s.gone, Below(Remaining(s), InclusiveBound(batch[|batch| - 1].id)));
  }

  lemma StepAcknowledges(maxLen: nat, s: State, step: Step)
    requires Inv(s) && AllAcknowledged(s) && Enabled(maxLen, s, step) && |Remaining(s)| < maxLen
    ensures AllAcknowledged(Apply(maxLen, s, step))
  {
    if step.Trim? {
      PersistedMayBeTrimmed(s, step.c);
      TrimAcknowledges(s, s.consumers[step.c].batch);
    } else if step.LateTrim? {
      assert MayBeTrimmed(s, step.batch);
      TrimAcknowledges(s, step.batch);
    }
  }

  lemma {:induction false} RunAcknowledges(maxLen: nat, run: seq<State>, k: nat)
    requires IsRun(maxLen, run) && WithinCap(maxLen, run) && k < |run|
    ensures AllAcknowledged(run[k])
  {
    if k > 0 {
      RunAcknowledges(maxLen, run, k - 1);
      RunInvariant(maxLen, run, k - 1);
      assert Next(maxLen, run[k - 1], run[k]);
      var step :| Enabled(maxLen, run[k - 1], step) && run[k] == Apply(maxLen, run[k - 1], step);
      StepAcknowledges(maxLen, run[k - 1], step);
    }
  }

  /** With a backlog within the cap, what the trims acknowledged one after the other, followed by what
      remains in the stream, is everything appended: in order and each once, and persisted. It holds for
      any number of overlapping consumers, however often crashes and failed inserts make them start
      over, and wherever the trims of crashed consumers land. */
  lemma ProcessedThenRemaining(maxLen: nat, run: seq<State>, k: nat)
    requires IsRun(maxLen, run) && WithinCap(maxLen, run) && k < |run|
    ensures run[k].gone <= |run[k].appended|
    ensures run[k].acknowledged + Remaining(run[k]) == run[k].appended
    ensures forall e :: e in run[k].acknowledged ==> e in run[k].persisted
  {
    RunAcknowledges(maxLen, run, k);
    NoEntryIsLost(maxLen, run, k);
  }

  // ---------------------------------------------------------------- a single consumer

  /** As the consumer lock intends, and with no trim left behind. */
  ghost predicate Alone(run: seq<State>) {
    forall k :: 0 <= k < |run| ==> |run[k].consumers| == 1 && run[k].inFlight == {}
  }

  ghost predicate ReadsFromTheFront(s: State) {
    |s.consumers| == 1 && s.gone <= |s.appended| && BatchOf(s.consumers[0]) <= Remaining(s)
  }

  lemma MoreRemains(all: seq<Entry>, gone: nat, e: Entry, batch: seq<Entry>)
    requires gone <= |all| && batch <= all[gone..]
    ensures batch <= (all + [e])[gone..]
  {
    assert (all + [e])[gone..] == all[gone..] + [e];
  }

  lemma StepReadsFromTheFront(maxLen: nat, s: State, step: Step)
    requires ReadsFromTheFront(s) && Sorted(s.appended) && s.inFlight == {}
    requires Enabled(maxLen, s, step) && |Remaining(s)| < maxLen
    ensures ReadsFromTheFront(Apply(maxLen, s, step))
  {
    if step.Add? {
      MoreRemains(s.appended, s.gone, step.entry, BatchOf(s.consumers[0]));
    } else if step.ReadPage? {
      SortedSuffix(s.appended, s.gone);
      NextPage(Remaining(s), BatchOf(s.consumers[0]), step.count);
    }
  }

  lemma RunStaysSorted(maxLen: nat, run: seq<State>, k: nat)
    requires IsRun(maxLen, run) && k < |run|
    ensures run[k].gone <= |run[k].appended| && Sorted(run[k].appended)
  {
    RunInvariant(maxLen, run, k);
  }

  lemma RunKeepsPersisted(maxLen: nat, run: seq<State>, k: nat, c: nat)
    requires IsRun(maxLen, run) && k < |run| && c < |run[k].consumers| && run[k].consumers[c].Persisted?
    ensures StreamOk(run[k]) && BatchOk(run[k], run[k].consumers[c].batch)
  {
    RunInvariant(maxLen, run, k);
    PersistedMayBeTrimmed(run[k], c);
  }

  lemma {:induction false} RunReadsFromTheFront(maxLen: nat, run: seq<State>, k: nat)
    requires IsRun(maxLen, run) && WithinCap(maxLen, run) && Alone(run) && k < |run|
    ensures ReadsFromTheFront(run[k])
  {
    if k > 0 {
      RunReadsFromTheFront(maxLen, run, k - 1);
      RunStaysSorted(maxLen, run, k - 1);
      assert Next(maxLen, run[k - 1], run[k]);
      var step :| Enabled(maxLen, run[k - 1], step) && run[k] == Apply(maxLen, run[k - 1], step);
      StepReadsFromTheFront(maxLen, run[k - 1], step);
    }
  }

  lemma {:induction false} WholeBatchIsThere(batch: seq<Entry>, rem: seq<Entry>)
    requires forall e :: e in batch ==> e in rem
    ensures StillThere(batch, rem) == batch
    decreases |batch|
  {
    if batch != [] {
      assert batch == [batch[0]] + batch[1..];
      WholeBatchIsThere(batch[1..], rem);
    }
  }

  lemma DropFurther(all: seq<Entry>, gone: nat, n: nat, batch: seq<Entry>)
    requires gone + n <= |all| && batch == all[gone..][..n]
    ensures all[gone..] == batch + all[gone + n..]
  {
  }

  lemma AllStillThere(batch: seq<Entry>, rem: seq<Entry>)
    requires batch <= rem
    ensures StillThere(batch, rem) == batch
  {
    assert forall e :: e in batch ==> e in rem;
    WholeBatchIsThere(batch, rem);
  }

  lemma TrimmedBy(s: State, batch: seq<Entry>, n: nat)
    requires s.gone <= |s.appended| && batch != [] && n <= |Remaining(s)|
    requires n == Below(Remaining(s), InclusiveBound(batch[|batch| - 1].id))
    requires StillThere(batch, Remaining(s)) == batch == Remaining(s)[..n]
    ensures var t := Trimmed(s, batch);
            && t.acknowledged == s.acknowledged + batch
            && t.gone <= |t.appended| && Remaining(s) == batch + Remaining(t)
  {
    DropFurther(s.appended, s.gone, n, batch);
    var t := Trimmed(s, batch);
    assert t.gone == s.gone + n && t.appended == s.appended;
    assert Remaining(t) == s.appended[s.gone + n..];
  }

  /** If all of the batch is still there, the trim removes just the batch. */
  lemma WholeTrim(s: State, batch: seq<Entry>)
    requires StreamOk(s) && BatchOk(s, batch) && batch != [] && batch <= Remaining(s)
    ensures var t := Trimmed(s, batch);
            && t.acknowledged == s.acknowledged + batch
            && t.gone <= |t.appended| && Remaining(s) == batch + Remaining(t)
  {
    var n := Below(Remaining(s), InclusiveBound(batch[|batch| - 1].id));
    AllStillThere(batch, Remaining(s));
    TrimRemovesThePart(s, batch);
    TrimmedBy(s, batch, n);
  }

  /** A lone consumer acknowledges whole batches: each of its trims removes exactly what it has read. */
  lemma LoneTrimRemovesTheBatch(maxLen: nat, run: seq<State>, k: nat, c: nat)
    requires IsRun(maxLen, run) && WithinCap(maxLen, run) && Alone(run) && k < |run|
    requires Enabled(maxLen, run[k], Trim(c))
    ensures var s, t := run[k], Apply(maxLen, run[k], Trim(c));
            && t.acknowledged == s.acknowledged + s.consumers[c].batch
            && t.gone <= |t.appended| && Remaining(s) == s.consumers[c].batch + Remaining(t)
  {
    RunReadsFromTheFront(maxLen, run, k);
    RunKeepsPersisted(maxLen, run, k, c);
    WholeTrim(run[k], run[k].consumers[c].batch);
  }
}
