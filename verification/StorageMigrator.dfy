/** Copying the records of one context from Askar to Drizzle, batch by batch, and freeing the native handles. */
module StorageMigrator {
  import opened Wrappers

  /** A scanned record: whether it can be read from the batch, whether an adapter is registered for it, whether it is the
      storage version record, and whether instantiating or writing it fails. */
  datatype Entry = Entry(id: nat, readable: bool, hasAdapter: bool, isVersion: bool, writeFails: bool)

  datatype Write = Insert(id: nat) | Update(id: nat)

  /** What the native scan hands out, one call after another; when nothing is left it has ended. */
  datatype Fetch = Batch(entries: seq<Entry>) | Failure

  datatype Handle = ScanHandle | BatchHandle(n: nat)

  /** Whether a free call throws, by the number of free calls made before it. */
  type FreeThrows = nat -> bool

  function WriteOf(e: Entry): Write {
    if e.isVersion then Update(e.id) else Insert(e.id)
  }

  /** A record that makes the migration throw. */
  predicate Stops(e: Entry, skipMissing: bool) {
    !e.readable || (if e.hasAdapter then e.writeFails else !skipMissing)
  }

  /** The records up to the first that makes the migration throw. */
  function Passed(entries: seq<Entry>, skipMissing: bool): (p: seq<Entry>)
    ensures p <= entries && forall e :: e in p ==> !Stops(e, skipMissing)
    ensures |p| < |entries| ==> Stops(entries[|p|], skipMissing)
  {
    if entries == [] || Stops(entries[0], skipMissing) then []
    else [entries[0]] + Passed(entries[1..], skipMissing)
  }

  function Writes(entries: seq<Entry>): seq<Write> {
    if entries == [] then []
    else Writes(entries[..|entries| - 1])
         + (if entries[|entries| - 1].hasAdapter then [WriteOf(entries[|entries| - 1])] else [])
  }

  function Skipped(entries: seq<Entry>): nat {
    if entries == [] then 0
    else Skipped(entries[..|entries| - 1]) + (if entries[|entries| - 1].hasAdapter then 0 else 1)
  }

  lemma {:induction false} Append(a: seq<Entry>, b: seq<Entry>)
    ensures Writes(a + b) == Writes(a) + Writes(b) && Skipped(a + b) == Skipped(a) + Skipped(b)
  {
    if b == [] {
      assert a + b == a;
    } else {
      assert (a + b)[..|a + b| - 1] == a + b[..|b| - 1];
      Append(a, b[..|b| - 1]);
    }
  }

  /** The version record is updated, as the new store has one already, and every other record is inserted. */
  lemma {:induction false} WrittenExactlyWhen(entries: seq<Entry>, id: nat)
    ensures Update(id) in Writes(entries) <==> exists e :: e in entries && e.hasAdapter && e.isVersion && e.id == id
    ensures Insert(id) in Writes(entries) <==> exists e :: e in entries && e.hasAdapter && !e.isVersion && e.id == id
  {
    if entries != [] {
      WrittenExactlyWhen(entries[..|entries| - 1], id);
      assert forall e :: e in entries <==> e in entries[..|entries| - 1] || e == entries[|entries| - 1];
    }
  }

  /** Every record is written or skipped. */
  lemma {:induction false} WrittenOrSkipped(entries: seq<Entry>)
    ensures |Writes(entries)| + Skipped(entries) == |entries|
  {
    if entries != [] { WrittenOrSkipped(entries[..|entries| - 1]); }
  }

  /** All records the scan would hand out. */
  function Scanned(fetches: seq<Fetch>): seq<Entry> {
    if fetches == [] || fetches[0].Failure? then [] else fetches[0].entries + Scanned(fetches[1..])
  }

  /** What becomes of a scan: the records processed, the free calls made, and whether it throws. */
  datatype Fate = Fate(processed: seq<Entry>, frees: seq<Handle>, threw: bool)

  /** The fate of a scan after n batches, each freed by one call. */
  function FateOf(fetches: seq<Fetch>, n: nat, skipMissing: bool, freeThrows: FreeThrows): Fate {
    if fetches == [] then Fate([], [ScanHandle], freeThrows(n))
    else if fetches[0].Failure? then Fate([], [ScanHandle], true)
    else
      var passed, h := Passed(fetches[0].entries, skipMissing), Some(BatchHandle(n));
      if |passed| < |fetches[0].entries| then Fate(passed, FreesOf(h, n, freeThrows), true)
      else if freeThrows(n) then
        // freed after the batch, and once more on the way out
        Fate(passed, [h.value] + FreesOf(h, n + 1, freeThrows), true)
      else
        var rest := FateOf(fetches[1..], n + 1, skipMissing, freeThrows);
        Fate(passed + rest.processed, [h.value] + rest.frees, rest.threw)
  }

  /** The free calls on the way out: if freeing a batch throws, the scan handle is not reached. */
  function FreesOf(held: Option<Handle>, calls: nat, freeThrows: FreeThrows): seq<Handle> {
    if held.None? then [ScanHandle]
    else if freeThrows(calls) then [held.value]
    else [held.value, ScanHandle]
  }

  /** What a migration did so far: the records processed, the free calls made, whether it threw and the batch it holds. */
  datatype Progress = Progress(processed: seq<Entry>, frees: seq<Handle>, threw: bool, held: Option<Handle>)

  const BEGUN := Progress([], [], false, None)

  /** The progress after one more fetch. */
  function AfterFetch(p: Progress, fetch: Fetch, n: nat, skipMissing: bool, freeThrows: FreeThrows): Progress {
    if fetch.Failure? then p.(threw := true)
    else
      var passed := Passed(fetch.entries, skipMissing);
      if |passed| < |fetch.entries| then Progress(p.processed + passed, p.frees, true, Some(BatchHandle(n)))
      else
        var threw := freeThrows(n);
        Progress(p.processed + passed, p.frees + [BatchHandle(n)], threw, if threw then Some(BatchHandle(n)) else None)
  }

  /** What a migration that found these writes and free calls leaves, and has counted. */
  ghost predicate Leads(written0: seq<Write>, frees0: seq<Handle>, p: Progress, migrated: nat, skipped: nat,
                        written: seq<Write>, frees: seq<Handle>)
  {
    && written == written0 + Writes(p.processed) && frees == frees0 + p.frees
    && migrated == |Writes(p.processed)| && skipped == Skipped(p.processed)
  }

  lemma LeadsOn(written0: seq<Write>, frees0: seq<Handle>, p: Progress, migrated: nat, skipped: nat,
                written: seq<Write>, frees: seq<Handle>, p': Progress, passed: seq<Entry>, more: seq<Handle>)
    requires Leads(written0, frees0, p, migrated, skipped, written, frees)
    requires p'.processed == p.processed + passed && p'.frees == p.frees + more
    ensures |frees| == |frees0| + |p.frees|
    ensures Leads(written0, frees0, p', migrated + |Writes(passed)|, skipped + Skipped(passed),
                  written + Writes(passed), frees + more)
  {
    Append(p.processed, passed);
    Regroup(written0, Writes(p.processed), Writes(passed));
    Regroup(frees0, p.frees, more);
  }

  class AskarToDrizzleStorageMigrator {
    const skipMigrationForMissingAdapter: bool
    /** What was written to Drizzle, and the free calls that were made. */
    var written: seq<Write>
    var frees: seq<Handle>

    constructor (skipMissing: bool)
      ensures skipMigrationForMissingAdapter == skipMissing && written == [] && frees == []
    {
      skipMigrationForMissingAdapter, written, frees := skipMissing, [], [];
    }

    ghost predicate Left(written0: seq<Write>, frees0: seq<Handle>, p: Progress, migrated: nat, skipped: nat)
      reads this
    {
      Leads(written0, frees0, p, migrated, skipped, written, frees)
    }

    /** A free call of the migration that started after `start` free calls. */
    method Free(h: Handle, start: nat, freeThrows: FreeThrows) returns (threw: bool)
      requires start <= |frees|
      modifies this`frees
      ensures frees == old(frees) + [h] && threw == freeThrows(|old(frees)| - start)
    {
      threw := freeThrows(|frees| - start);
      frees := frees + [h];
    }

    method MigrateBatch(entries: seq<Entry>) returns (threw: bool, migrated: nat, skipped: nat)
      modifies this`written
      ensures var passed := Passed(entries, skipMigrationForMissingAdapter);
        && written == old(written) + Writes(passed)
        && migrated == |Writes(passed)| && skipped == Skipped(passed)
        && (threw <==> |passed| < |entries|)
    {
      migrated, skipped := 0, 0;
      for index := 0 to |entries|
        invariant written == old(written) + Writes(entries[..index])
        invariant migrated == |Writes(entries[..index])| && skipped == Skipped(entries[..index])
        invariant forall i :: 0 <= i < index ==> !Stops(entries[i], skipMigrationForMissingAdapter)
      {
        var entry := entries[index];
        if !entry.readable || (!entry.hasAdapter && !skipMigrationForMissingAdapter)
           || (entry.hasAdapter && entry.writeFails) {
          PassedIsPrefix(entries, index, skipMigrationForMissingAdapter);
          return true, migrated, skipped;
        }
        assert entries[..index + 1][..index] == entries[..index];
        if !entry.hasAdapter {
          skipped := skipped + 1;
        } else {
          written := written + [WriteOf(entry)];
          migrated := migrated + 1;
        }
      }
      PassedIsPrefix(entries, |entries|, skipMigrationForMissingAdapter);
      threw := false;
    }

    /** Migrates a batch and frees its handle if nothing threw. */
    method ProcessBatch(entries: seq<Entry>, h: Handle, start: nat, freeThrows: FreeThrows)
      returns (threw: bool, held: Option<Handle>, migrated: nat, skipped: nat)
      requires start <= |frees|
      modifies this`written, this`frees
      ensures var passed := Passed(entries, skipMigrationForMissingAdapter);
        && written == old(written) + Writes(passed)
        && migrated == |Writes(passed)| && skipped == Skipped(passed)
        && frees == old(frees) + (if |passed| < |entries| then [] else [h])
        && (threw <==> |passed| < |entries| || freeThrows(|old(frees)| - start))
      ensures held == if threw then Some(h) else None
    {
      threw, migrated, skipped := MigrateBatch(entries);
      if !threw { threw := Free(h, start, freeThrows); }
      held := if threw then Some(h) else None;
    }

    /** The handles that are still held are freed on every exit. */
    method FreeHeld(held: Option<Handle>, start: nat, freeThrows: FreeThrows) returns (threw: bool)
      requires start <= |frees|
      modifies this`frees
      ensures var calls := |old(frees)| - start;
        && frees == old(frees) + FreesOf(held, calls, freeThrows)
        && (threw <==> freeThrows(calls) || (held.Some? && freeThrows(calls + 1)))
    {
      if held.Some? {
        threw := Free(held.value, start, freeThrows);
        if threw { return; }
      }
      threw := Free(ScanHandle, start, freeThrows);
    }

    /** Handles one fetch, after n batches that were each freed by one call. */
    method ProcessFetch(fetch: Fetch, n: nat, freeThrows: FreeThrows, migrated: nat, skipped: nat,
                        ghost written0: seq<Write>, frees0: seq<Handle>, ghost p: Progress)
      returns (threw: bool, held: Option<Handle>, migrated': nat, skipped': nat)
      requires Left(written0, frees0, p, migrated, skipped) && !p.threw && p.held.None? && |p.frees| == n
      modifies this`written, this`frees
      ensures var p' := AfterFetch(p, fetch, n, skipMigrationForMissingAdapter, freeThrows);
        Left(written0, frees0, p', migrated', skipped') && threw == p'.threw && held == p'.held
    {
      if fetch.Failure? { return true, None, migrated, skipped; }
      ghost var passed := Passed(fetch.entries, skipMigrationForMissingAdapter);
      ghost var p' := AfterFetch(p, fetch, n, skipMigrationForMissingAdapter, freeThrows);
      ghost var more := if |passed| < |fetch.entries| then [] else [BatchHandle(n)];
      LeadsOn(written0, frees0, p, migrated, skipped, written, frees, p', passed, more);
      var m, s;
      threw, held, m, s := ProcessBatch(fetch.entries, BatchHandle(n), |frees0|, freeThrows);
      migrated', skipped' := migrated + m, skipped + s;
    }

    /** Fetches and migrates batches until none is left or something throws. */
    method MigrateBatches(fetches: seq<Fetch>, freeThrows: FreeThrows)
      returns (threw: bool, held: Option<Handle>, migrated: nat, skipped: nat, ghost p: Progress)
      modifies this`written, this`frees
      ensures Left(old(written), old(frees), p, migrated, skipped) && threw == p.threw && held == p.held
      ensures Accounts(FateOf(fetches, 0, skipMigrationForMissingAdapter, freeThrows), p, [], |fetches|,
                       skipMigrationForMissingAdapter, freeThrows)
    {
      ghost var skip := skipMigrationForMissingAdapter;
      ghost var fate := FateOf(fetches, 0, skip, freeThrows);
      FateAtStart(fetches, skip, freeThrows);
      var frees0 := frees;
      held, threw, migrated, skipped, p := None, false, 0, 0, BEGUN;
      var n := 0;
      while !threw && n < |fetches|
        invariant n <= |fetches| && threw == p.threw && held == p.held
        invariant Accounts(fate, p, fetches[n..], n, skip, freeThrows)
        invariant Left(old(written), frees0, p, migrated, skipped)
        decreases |fetches| - n, !threw
      {
        AccountForFetch(fate, p, fetches, n, skip, freeThrows);
        threw, held, migrated, skipped :=
          ProcessFetch(fetches[n], n, freeThrows, migrated, skipped, old(written), frees0, p);
        p, n := AfterFetch(p, fetches[n], n, skip, freeThrows), n + 1;
      }
      NothingIsLeft(fate, p, fetches, n, skip, freeThrows);
    }

    /** The migration of one context; the handles that are still held are freed on every exit. */
    method MigrateForContext(scanStarts: bool, fetches: seq<Fetch>, freeThrows: FreeThrows)
      returns (threw: bool, migrated: nat, skipped: nat)
      modifies this`written, this`frees
      ensures !scanStarts ==> threw && written == old(written) && frees == old(frees)
      ensures scanStarts ==>
        var f := FateOf(fetches, 0, skipMigrationForMissingAdapter, freeThrows);
        && written == old(written) + Writes(f.processed) && frees == old(frees) + f.frees && threw == f.threw
        && migrated == |Writes(f.processed)| && skipped == Skipped(f.processed)
    {
      if !scanStarts { return true, 0, 0; }
      var start, held := |frees|, None;
      ghost var p;
      threw, held, migrated, skipped, p := MigrateBatches(fetches, freeThrows);
      Conclude(FateOf(fetches, 0, skipMigrationForMissingAdapter, freeThrows), p, |fetches|,
               skipMigrationForMissingAdapter, freeThrows);
      Regroup(old(frees), p.frees, FreesOf(held, |p.frees|, freeThrows));
      var failed := FreeHeld(held, start, freeThrows);
      threw := threw || failed;
    }
  }

  lemma {:induction false} FateAtStart(fetches: seq<Fetch>, skipMissing: bool, freeThrows: FreeThrows)
    ensures Accounts(FateOf(fetches, 0, skipMissing, freeThrows), BEGUN, fetches[0..], 0, skipMissing, freeThrows)
  {
    var f := FateOf(fetches, 0, skipMissing, freeThrows);
    assert fetches[0..] == fetches && [] + f.processed == f.processed && [] + f.frees == f.frees;
  }

  lemma Regroup<T>(a: seq<T>, b: seq<T>, c: seq<T>)
    ensures a + b + c == a + (b + c)
  {
  }

  /** What happened so far and what is to come make up the whole. */
  ghost predicate After(whole: Fate, p: Progress, rest: Fate) {
    whole == Fate(p.processed + rest.processed, p.frees + rest.frees, rest.threw)
  }

  ghost predicate Accounts(
    whole: Fate, p: Progress, rest: seq<Fetch>, n: nat, skipMissing: bool, freeThrows: FreeThrows)
  {
    && (p.threw ==> After(whole, p, Fate([], FreesOf(p.held, |p.frees|, freeThrows), true)))
    && (!p.threw ==> p.held.None? && |p.frees| == n && After(whole, p, FateOf(rest, n, skipMissing, freeThrows)))
  }

  lemma {:induction false} NothingIsLeft(
    whole: Fate, p: Progress, fetches: seq<Fetch>, n: nat, skipMissing: bool, freeThrows: FreeThrows)
    requires n <= |fetches| && (p.threw || n == |fetches|)
    requires Accounts(whole, p, fetches[n..], n, skipMissing, freeThrows)
    ensures Accounts(whole, p, [], |fetches|, skipMissing, freeThrows)
  {
    assert n == |fetches| ==> fetches[n..] == [];
  }

  lemma AfterStep(whole: Fate, p: Progress, rest: Fate, p': Progress, passed: seq<Entry>, frees: seq<Handle>, tail: Fate)
    requires After(whole, p, rest)
    requires p'.processed == p.processed + passed && p'.frees == p.frees + frees
    requires rest == Fate(passed + tail.processed, frees + tail.frees, tail.threw)
    ensures After(whole, p', tail)
  {
    Regroup(p.processed, passed, tail.processed);
    Regroup(p.frees, frees, tail.frees);
  }

  lemma {:induction false} AccountForFetch(
    whole: Fate, p: Progress, fetches: seq<Fetch>, n: nat, skipMissing: bool, freeThrows: FreeThrows)
    requires n < |fetches| && !p.threw && Accounts(whole, p, fetches[n..], n, skipMissing, freeThrows)
    ensures p.held.None? && |p.frees| == n
    ensures Accounts(whole, AfterFetch(p, fetches[n], n, skipMissing, freeThrows), fetches[n + 1..], n + 1, skipMissing,
                     freeThrows)
  {
    var rest, p' := FateOf(fetches[n..], n, skipMissing, freeThrows), AfterFetch(p, fetches[n], n, skipMissing, freeThrows);
    assert fetches[n..][0] == fetches[n] && fetches[n..][1..] == fetches[n + 1..];
    if fetches[n].Batch? {
      var passed, h := Passed(fetches[n].entries, skipMissing), BatchHandle(n);
      assert passed + [] == passed;
      if |passed| < |fetches[n].entries| {
        var tail := FreesOf(Some(h), n, freeThrows);
        assert [] + tail == tail && p.frees + [] == p.frees;
        AfterStep(whole, p, rest, p', passed, [], Fate([], tail, true));
      } else if freeThrows(n) {
        AfterStep(whole, p, rest, p', passed, [h], Fate([], FreesOf(Some(h), n + 1, freeThrows), true));
      } else {
        AfterStep(whole, p, rest, p', passed, [h], FateOf(fetches[n + 1..], n + 1, skipMissing, freeThrows));
      }
    }
  }

  lemma Conclude(whole: Fate, p: Progress, n: nat, skipMissing: bool, freeThrows: FreeThrows)
    requires Accounts(whole, p, [], n, skipMissing, freeThrows)
    ensures whole.processed == p.processed && whole.frees == p.frees + FreesOf(p.held, |p.frees|, freeThrows)
    ensures whole.threw == (p.threw || freeThrows(|p.frees|))
  {
  }

  lemma {:induction false} PassedIsPrefix(entries: seq<Entry>, n: nat, skipMissing: bool)
    requires n <= |entries| && (forall i :: 0 <= i < n ==> !Stops(entries[i], skipMissing))
    requires n < |entries| ==> Stops(entries[n], skipMissing)
    ensures Passed(entries, skipMissing) == entries[..n]
  {
    if n > 0 {
      PassedIsPrefix(entries[1..], n - 1, skipMissing);
      assert entries[..n] == [entries[0]] + entries[1..][..n - 1];
    }
  }

  // ---- What a migration guarantees ----

  /** What is processed is what was scanned when the migration returns normally, and the records before the one it
      stopped at when it throws. */
  lemma {:induction false} ScannedRecordsAreProcessed(
    fetches: seq<Fetch>, n: nat, skipMissing: bool, freeThrows: FreeThrows)
    ensures var f := FateOf(fetches, n, skipMissing, freeThrows);
      f.processed <= Scanned(fetches) && (!f.threw ==> f.processed == Scanned(fetches))
    ensures forall e :: e in FateOf(fetches, n, skipMissing, freeThrows).processed ==> !Stops(e, skipMissing)
    decreases |fetches|
  {
    if fetches != [] && fetches[0].Batch? {
      ScannedRecordsAreProcessed(fetches[1..], n + 1, skipMissing, freeThrows);
    }
  }

  /** Migrated and skipped records add up to those processed, and none is skipped unless that is allowed. */
  lemma MigrationConservesRecords(fetches: seq<Fetch>, skipMissing: bool, freeThrows: FreeThrows)
    ensures var f := FateOf(fetches, 0, skipMissing, freeThrows);
      && |Writes(f.processed)| + Skipped(f.processed) == |f.processed|
      && (!f.threw ==> |Writes(f.processed)| + Skipped(f.processed) == |Scanned(fetches)|)
      && (Skipped(f.processed) > 0 ==> skipMissing)
  {
    var f := FateOf(fetches, 0, skipMissing, freeThrows);
    ScannedRecordsAreProcessed(fetches, 0, skipMissing, freeThrows);
    WrittenOrSkipped(f.processed);
    NothingSkippedUnlessAllowed(f.processed, skipMissing);
  }

  lemma {:induction false} NothingSkippedUnlessAllowed(entries: seq<Entry>, skipMissing: bool)
    requires forall e :: e in entries ==> !Stops(e, skipMissing)
    ensures Skipped(entries) > 0 ==> skipMissing
  {
    if entries != [] {
      assert entries[|entries| - 1] in entries;
      NothingSkippedUnlessAllowed(entries[..|entries| - 1], skipMissing);
    }
  }

  /** A record that cannot be copied: it cannot be read, or it has an adapter that fails to write it, or it has none while
      that is not allowed. */
  predicate CannotBeCopied(e: Entry, skipMissing: bool) {
    !e.readable || (e.hasAdapter && e.writeFails) || (!e.hasAdapter && !skipMissing)
  }

  lemma {:induction false} PassesExactlyWhenCopied(entries: seq<Entry>, skipMissing: bool)
    ensures Passed(entries, skipMissing) == entries <==> forall e :: e in entries ==> !CannotBeCopied(e, skipMissing)
  {
    if entries != [] {
      PassesExactlyWhenCopied(entries[1..], skipMissing);
      var all, tail := Passed(entries, skipMissing), Passed(entries[1..], skipMissing);
      assert forall e :: e in entries <==> e == entries[0] || e in entries[1..];
      if !Stops(entries[0], skipMissing) {
        assert all == [entries[0]] + tail && entries == [entries[0]] + entries[1..];
        assert all[1..] == tail;
        assert all == entries <==> tail == entries[1..];
      }
    }
  }

  /** A migration returns normally exactly when no fetch fails, every record can be copied and no free call throws. */
  lemma {:induction false} ReturnsNormallyExactlyWhen(
    fetches: seq<Fetch>, n: nat, skipMissing: bool, freeThrows: FreeThrows)
    ensures !FateOf(fetches, n, skipMissing, freeThrows).threw <==>
      && (forall i :: 0 <= i < |fetches| ==>
            fetches[i].Batch? && forall e :: e in fetches[i].entries ==> !CannotBeCopied(e, skipMissing))
      && (forall i :: n <= i <= n + |fetches| ==> !freeThrows(i))
    decreases |fetches|
  {
    if fetches != [] && fetches[0].Batch? {
      var passed, tail := Passed(fetches[0].entries, skipMissing), fetches[1..];
      PassesExactlyWhenCopied(fetches[0].entries, skipMissing);
      ReturnsNormallyExactlyWhen(tail, n + 1, skipMissing, freeThrows);
      assert forall i :: 0 <= i < |tail| ==> tail[i] == fetches[i + 1];
      assert |passed| == |fetches[0].entries| ==> passed == fetches[0].entries;
      assert (forall i :: 0 <= i < |fetches| ==>
                fetches[i].Batch? && forall e :: e in fetches[i].entries ==> !CannotBeCopied(e, skipMissing)) <==>
             && (forall e :: e in fetches[0].entries ==> !CannotBeCopied(e, skipMissing))
             && (forall i :: 0 <= i < |tail| ==>
                   tail[i].Batch? && forall e :: e in tail[i].entries ==> !CannotBeCopied(e, skipMissing)) by {
        forall i | 0 < i < |fetches| ensures fetches[i] == tail[i - 1] {}
      }
    }
  }

  /** The number of batches that are handed out. */
  function Handed(fetches: seq<Fetch>, n: nat, skipMissing: bool, freeThrows: FreeThrows): nat {
    if fetches == [] || fetches[0].Failure? then 0
    else if |Passed(fetches[0].entries, skipMissing)| < |fetches[0].entries| || freeThrows(n) then 1
    else 1 + Handed(fetches[1..], n + 1, skipMissing, freeThrows)
  }

  /** The free call, if any, for a batch that is still held on the way out. */
  function WayOutCall(fetches: seq<Fetch>, n: nat, skipMissing: bool, freeThrows: FreeThrows): Option<nat> {
    if fetches == [] || fetches[0].Failure? then None
    else if |Passed(fetches[0].entries, skipMissing)| < |fetches[0].entries| then Some(n)
    else if freeThrows(n) then Some(n + 1)
    else WayOutCall(fetches[1..], n + 1, skipMissing, freeThrows)
  }

  /** The batch handles in the order they are handed out, then the scan handle: each once. */
  function EachOnce(n: nat, handed: nat): seq<Handle> {
    seq(handed, i requires 0 <= i < handed => BatchHandle(n + i)) + [ScanHandle]
  }

  lemma EachOnceStep(n: nat, handed: nat)
    ensures EachOnce(n, handed + 1) == [BatchHandle(n)] + EachOnce(n + 1, handed)
  {
  }

  /** The scan handle is freed exactly when freeing the batch that is still held on the way out, if there is one, does
      not throw. */
  lemma {:induction false} ScanIsFreedExactlyWhen(
    fetches: seq<Fetch>, n: nat, skipMissing: bool, freeThrows: FreeThrows)
    ensures var wayOut := WayOutCall(fetches, n, skipMissing, freeThrows);
      ScanHandle in FateOf(fetches, n, skipMissing, freeThrows).frees <==> wayOut.None? || !freeThrows(wayOut.value)
    decreases |fetches|
  {
    if fetches != [] && fetches[0].Batch? {
      ScanIsFreedExactlyWhen(fetches[1..], n + 1, skipMissing, freeThrows);
    }
  }

  lemma StoppedOrFailedFrees(fetches: seq<Fetch>, n: nat, skipMissing: bool, freeThrows: FreeThrows)
    requires fetches != [] && fetches[0].Batch?
    requires |Passed(fetches[0].entries, skipMissing)| < |fetches[0].entries| || freeThrows(n)
    ensures FateOf(fetches, n, skipMissing, freeThrows).frees == EachOnce(n, 1) <==> !freeThrows(n)
  {
    EachOnceStep(n, 0);
    assert EachOnce(n + 1, 0) == [ScanHandle];
    assert EachOnce(n, 1)[1] == ScanHandle && |EachOnce(n, 1)| == 2;
  }

  /** On every exit each handle is freed exactly once, batches in order and the scan last, exactly when no free call
      made for a batch throws. */
  lemma {:induction false} HandlesAreFreedOnceExactlyWhen(
    fetches: seq<Fetch>, n: nat, skipMissing: bool, freeThrows: FreeThrows)
    ensures var handed := Handed(fetches, n, skipMissing, freeThrows);
      FateOf(fetches, n, skipMissing, freeThrows).frees == EachOnce(n, handed) <==>
      forall i :: n <= i < n + handed ==> !freeThrows(i)
    decreases |fetches|
  {
    if fetches == [] || fetches[0].Failure? {
      assert EachOnce(n, 0) == [ScanHandle];
    } else if |Passed(fetches[0].entries, skipMissing)| < |fetches[0].entries| || freeThrows(n) {
      StoppedOrFailedFrees(fetches, n, skipMissing, freeThrows);
    } else {
      var rest := FateOf(fetches[1..], n + 1, skipMissing, freeThrows).frees;
      var handed := Handed(fetches[1..], n + 1, skipMissing, freeThrows);
      HandlesAreFreedOnceExactlyWhen(fetches[1..], n + 1, skipMissing, freeThrows);
      EachOnceStep(n, handed);
      assert ([BatchHandle(n)] + rest)[1..] == rest;
      assert ([BatchHandle(n)] + EachOnce(n + 1, handed))[1..] == EachOnce(n + 1, handed);
    }
  }

  /** A batch whose release throws is released again; if that throws too the scan handle is not released. */
  lemma ThrowingReleaseIsRepeated(entries: seq<Entry>, skipMissing: bool)
    requires forall e :: e in entries ==> !Stops(e, skipMissing)
    ensures FateOf([Batch(entries)], 0, skipMissing, i => i == 0).frees == [BatchHandle(0), BatchHandle(0), ScanHandle]
    ensures FateOf([Batch(entries)], 0, skipMissing, i => true).frees == [BatchHandle(0), BatchHandle(0)]
  {
    PassedIsPrefix(entries, |entries|, skipMissing);
  }
}
