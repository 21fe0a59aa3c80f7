/** Filling the revocation registries of a request or a proof: closures that run concurrently over one shared map. */
module RevocationFill {
  import opened Wrappers
  import opened RevocationRegistry

  /** For a proof request a list is stored under its own timestamp, for a received proof under the requested one. */
  datatype Purpose = ForRequest | ForProof

  /** One closure: the registry of its credential, the timestamp selected with it, if any, and the interval's `to`. */
  datatype Job = Job(registryId: string, timestamp: Option<nat>, to: nat)

  datatype Phase = FetchingDefinition | FetchingTails | FetchingList | Done | Failed

  /** `registries` is the shared map, reduced to the status lists of each entry; `stamps` are the timestamps of the
      selected credentials. */
  datatype Fill = Fill(registries: map<string, map<int, StatusList>>, phases: seq<Phase>, stamps: seq<Option<nat>>)

  function ToFetch(j: Job): nat {
    j.timestamp.GetOr(j.to)
  }

  function Answer(ledger: Ledger, j: Job): Option<StatusList> {
    if j.registryId in ledger then At(ledger[j.registryId], ToFetch(j)) else None
  }

  // Whether the entry of the closure's registry lacks its list.
  function CheckList(registries: map<string, map<int, StatusList>>, j: Job): Phase {
    if j.registryId in registries && ToFetch(j) in registries[j.registryId] then Done else FetchingList
  }

  // What a closure does when it is called, up to its first await.
  function Enter(registries: map<string, map<int, StatusList>>, j: Job): Phase {
    if j.registryId !in registries then FetchingDefinition else CheckList(registries, j)
  }

  /** The loop that calls the closures awaits nothing, so each runs up to its first await on the empty map: none finds an
      entry of another, and all are to fetch their registry's definition. This is the state the interleavings start in. */
  method Launch(jobs: seq<Job>) returns (f: Fill)
    ensures f == Launched(jobs)
  {
    var registries: map<string, map<int, StatusList>> := map[];
    var phases: seq<Phase> := [];
    var stamps: seq<Option<nat>> := [];
    for i := 0 to |jobs|
      invariant phases == Launched(jobs[..i]).phases && stamps == Launched(jobs[..i]).stamps
    {
      phases := phases + [Enter(registries, jobs[i])];
      stamps := stamps + [jobs[i].timestamp];
    }
    assert jobs[..|jobs|] == jobs;
    f := Fill(registries, phases, stamps);
  }

  function Launched(jobs: seq<Job>): Fill {
    Fill(map[], seq(|jobs|, _ => FetchingDefinition), seq(|jobs|, i requires 0 <= i < |jobs| => jobs[i].timestamp))
  }

  /** Closure `i` continues after what it awaited succeeded or not. */
  function Continue(ledger: Ledger, purpose: Purpose, jobs: seq<Job>, f: Fill, i: nat, fetched: bool): Fill
    requires |f.phases| == |f.stamps| == |jobs|
  {
    if i >= |jobs| then f
    else
      var j := jobs[i];
      match f.phases[i]
      case FetchingDefinition =>
        if !fetched then f.(phases := f.phases[i := Failed])
        else if purpose.ForRequest? then f.(phases := f.phases[i := FetchingTails])
        else StoreEntry(f, j, i)
      case FetchingTails =>
        if !fetched then f.(phases := f.phases[i := Failed]) else StoreEntry(f, j, i)
      case FetchingList =>
        var list := Answer(ledger, j);
        if !fetched || list.None? || j.registryId !in f.registries then f.(phases := f.phases[i := Failed])
        else
          var key: nat := if purpose.ForRequest? then list.value.timestamp else ToFetch(j);
          f.(registries := f.registries[j.registryId := f.registries[j.registryId][key := list.value]],
             stamps := if purpose.ForRequest? && !Truthy(j.timestamp) then f.stamps[i := Some(key)] else f.stamps,
             phases := f.phases[i := Done])
      case Done => f
      case Failed => f
  }

  // The entry is written without looking again whether another closure wrote it meanwhile.
  function StoreEntry(f: Fill, j: Job, i: nat): Fill
    requires i < |f.phases|
  {
    var registries := f.registries[j.registryId := map[]];
    f.(registries := registries, phases := f.phases[i := CheckList(registries, j)])
  }

  // ---- What one closure does ----

  predicate Fetches(phase: Phase) {
    phase == FetchingDefinition || phase == FetchingTails || phase == FetchingList
  }

  /** A closure that starts fetches the definition of its registry unless there is an entry for it, and its list unless
      that is there too. */
  lemma EntersExactlyWhen(registries: map<string, map<int, StatusList>>, j: Job)
    ensures var time := if j.timestamp.Some? then j.timestamp.value else j.to;
      Enter(registries, j) ==
      if j.registryId !in registries then FetchingDefinition
      else if time !in registries[j.registryId] then FetchingList
      else Done
  {
  }

  /** A fetch that fails ends its closure, and so does one that finds no list; nothing else changes. */
  lemma FailedFetchEndsTheClosure(
    ledger: Ledger, purpose: Purpose, jobs: seq<Job>, f: Fill, i: nat, fetched: bool)
    requires |f.phases| == |f.stamps| == |jobs| && i < |jobs| && Fetches(f.phases[i])
    requires !fetched || (f.phases[i] == FetchingList && Answer(ledger, jobs[i]) == None)
    ensures Continue(ledger, purpose, jobs, f, i, fetched) == f.(phases := f.phases[i := Failed])
  {
  }

  /** With the definition a request's closure goes on to the tails file. Then, or for a proof at once, an empty entry is
      written for the registry, whatever was there, and the list is fetched. */
  lemma DefinitionGivesAnEmptyEntry(ledger: Ledger, purpose: Purpose, jobs: seq<Job>, f: Fill, i: nat)
    requires |f.phases| == |f.stamps| == |jobs| && i < |jobs|
    ensures f.phases[i] == FetchingDefinition && purpose == ForRequest ==>
      Continue(ledger, purpose, jobs, f, i, true) == f.(phases := f.phases[i := FetchingTails])
    ensures f.phases[i] == FetchingTails || (f.phases[i] == FetchingDefinition && purpose == ForProof) ==>
      Continue(ledger, purpose, jobs, f, i, true)
      == f.(registries := f.registries[jobs[i].registryId := map[]], phases := f.phases[i := FetchingList])
  {
  }

  /** The list is added to what the entry holds by then: for a request under the list's own timestamp, which becomes that of
      a credential that was selected without one, and for a proof under the requested time. */
  lemma FetchedListIsAdded(ledger: Ledger, purpose: Purpose, jobs: seq<Job>, f: Fill, i: nat)
    requires |f.phases| == |f.stamps| == |jobs| && i < |jobs| && f.phases[i] == FetchingList
    requires Answer(ledger, jobs[i]).Some? && jobs[i].registryId in f.registries
    ensures var after, list := Continue(ledger, purpose, jobs, f, i, true), Answer(ledger, jobs[i]).value;
      var entry, time: nat := f.registries[jobs[i].registryId], jobs[i].timestamp.GetOr(jobs[i].to);
      var key := if purpose == ForRequest then list.timestamp else time;
      && after.registries == f.registries[jobs[i].registryId := entry[key := list]]
      && after.phases == f.phases[i := Done]
      && after.stamps == if purpose == ForRequest && (jobs[i].timestamp == None || jobs[i].timestamp == Some(0))
                         then f.stamps[i := Some(list.timestamp)] else f.stamps
  {
  }

  function Run(ledger: Ledger, purpose: Purpose, jobs: seq<Job>, schedule: seq<(nat, bool)>): (f: Fill)
    ensures |f.phases| == |f.stamps| == |jobs|
  {
    if schedule == [] then Launched(jobs)
    else
      var last := schedule[|schedule| - 1];
      Continue(ledger, purpose, jobs, Run(ledger, purpose, jobs, schedule[..|schedule| - 1]), last.0, last.1)
  }

  ghost predicate Complete(f: Fill) {
    forall i :: 0 <= i < |f.phases| ==> f.phases[i].Done?
  }

  // ---- What the holder looks up while it creates the proof ----

  datatype Lookup = NotNeeded | Found(list: StatusList) | NoRegistry | NoList

  function ProofLookup(registries: map<string, map<int, StatusList>>, registryId: string, timestamp: Option<nat>): Lookup {
    if !Truthy(timestamp) then NotNeeded
    else if registryId !in registries then NoRegistry
    else if timestamp.value !in registries[registryId] then NoList
    else Found(registries[registryId][timestamp.value])
  }

  /** The key a closure's list is stored under. */
  function Key(ledger: Ledger, purpose: Purpose, j: Job): nat
    requires Answer(ledger, j).Some?
  {
    if purpose.ForRequest? then Answer(ledger, j).value.timestamp else ToFetch(j)
  }

  /** For every closure there is a list to fetch. */
  ghost predicate Answerable(ledger: Ledger, purpose: Purpose, jobs: seq<Job>) {
    && (forall id :: id in ledger ==> Published(ledger[id]))
    && (forall i :: 0 <= i < |jobs| ==> Answer(ledger, jobs[i]).Some?)
  }

  predicate SelectsAList(ledger: Ledger, purpose: Purpose, j: Job)
    requires Answer(ledger, j).Some?
  {
    purpose.ForRequest? && j.timestamp.Some? ==> Answer(ledger, j).value.timestamp == j.timestamp.value
  }

  /** A timestamp that was selected with a credential for a request is the timestamp of a list. */
  ghost predicate SelectedAreLists(ledger: Ledger, purpose: Purpose, jobs: seq<Job>)
    requires Answerable(ledger, purpose, jobs)
  {
    forall i :: 0 <= i < |jobs| ==> SelectsAList(ledger, purpose, jobs[i])
  }

  /** All closures of one registry store their list under one timestamp. */
  ghost predicate OneListPerRegistry(ledger: Ledger, purpose: Purpose, jobs: seq<Job>)
    requires Answerable(ledger, purpose, jobs)
  {
    forall i, k :: 0 <= i < |jobs| && 0 <= k < |jobs| && jobs[i].registryId == jobs[k].registryId ==>
      Key(ledger, purpose, jobs[i]) == Key(ledger, purpose, jobs[k])
  }

  /** Every closure's list is there, and for a request the holder's lookup finds exactly it. */
  ghost predicate AllFound(ledger: Ledger, purpose: Purpose, jobs: seq<Job>, f: Fill)
    requires Answerable(ledger, purpose, jobs) && |f.stamps| == |jobs|
  {
    forall i :: 0 <= i < |jobs| ==>
      && jobs[i].registryId in f.registries
      && Key(ledger, purpose, jobs[i]) in f.registries[jobs[i].registryId]
      && f.registries[jobs[i].registryId][Key(ledger, purpose, jobs[i])] == Answer(ledger, jobs[i]).value
      && (purpose.ForRequest? ==>
            ProofLookup(f.registries, jobs[i].registryId, f.stamps[i]) == Found(Answer(ledger, jobs[i]).value))
  }

  // ---- With one list per registry no interleaving loses it ----

  predicate Stored(ledger: Ledger, purpose: Purpose, f: Fill, j: Job)
    requires Answer(ledger, j).Some?
  {
    var key := Key(ledger, purpose, j);
    && j.registryId in f.registries && key in f.registries[j.registryId]
    && f.registries[j.registryId][key] == Answer(ledger, j).value
  }

  // A closure of this registry is about to store its list, or failed to.
  ghost predicate Pending(jobs: seq<Job>, f: Fill, id: string)
    requires |f.phases| == |jobs|
  {
    exists k :: 0 <= k < |jobs| && jobs[k].registryId == id && (f.phases[k].FetchingList? || f.phases[k].Failed?)
  }

  ghost predicate EntryInv(jobs: seq<Job>, f: Fill)
    requires |f.phases| == |jobs|
  {
    forall i :: 0 <= i < |jobs| && (f.phases[i].FetchingList? || f.phases[i].Done?) ==>
      jobs[i].registryId in f.registries
  }

  ghost predicate StampInv(ledger: Ledger, purpose: Purpose, jobs: seq<Job>, f: Fill)
    requires Answerable(ledger, purpose, jobs) && |f.phases| == |f.stamps| == |jobs|
  {
    purpose.ForRequest? ==> forall i :: 0 <= i < |jobs| ==>
      f.stamps[i] == (if f.phases[i].Done? && !Truthy(jobs[i].timestamp) then Some(Key(ledger, purpose, jobs[i]))
                      else jobs[i].timestamp)
  }

  // The list of a closure that is done is stored, or another closure is still about to store it.
  ghost predicate StoredInv(ledger: Ledger, purpose: Purpose, jobs: seq<Job>, f: Fill)
    requires Answerable(ledger, purpose, jobs) && |f.phases| == |jobs|
  {
    forall i :: 0 <= i < |jobs| && f.phases[i].Done? ==>
      Stored(ledger, purpose, f, jobs[i]) || Pending(jobs, f, jobs[i].registryId)
  }

  ghost predicate Inv(ledger: Ledger, purpose: Purpose, jobs: seq<Job>, f: Fill)
    requires Answerable(ledger, purpose, jobs) && |f.phases| == |f.stamps| == |jobs|
  {
    EntryInv(jobs, f) && StampInv(ledger, purpose, jobs, f) && StoredInv(ledger, purpose, jobs, f)
  }

  // The closures of one registry store the same list under the same key.
  lemma SameKeySameList(ledger: Ledger, purpose: Purpose, a: Job, b: Job)
    requires a.registryId == b.registryId && a.registryId in ledger && Published(ledger[a.registryId])
    requires Answer(ledger, a).Some? && Answer(ledger, b).Some? && Key(ledger, purpose, a) == Key(ledger, purpose, b)
    ensures Answer(ledger, a) == Answer(ledger, b)
  {
    AtIsIdempotent(ledger[a.registryId], ToFetch(a));
    AtIsIdempotent(ledger[b.registryId], ToFetch(b));
  }

  lemma ContinueKeepsEntryInv(ledger: Ledger, purpose: Purpose, jobs: seq<Job>, f: Fill, i: nat, fetched: bool)
    requires |f.phases| == |f.stamps| == |jobs| && EntryInv(jobs, f)
    ensures EntryInv(jobs, Continue(ledger, purpose, jobs, f, i, fetched))
  {
  }

  lemma ContinueKeepsStampInv(ledger: Ledger, purpose: Purpose, jobs: seq<Job>, f: Fill, i: nat, fetched: bool)
    requires Answerable(ledger, purpose, jobs) && |f.phases| == |f.stamps| == |jobs|
    requires StampInv(ledger, purpose, jobs, f)
    ensures StampInv(ledger, purpose, jobs, Continue(ledger, purpose, jobs, f, i, fetched))
  {
  }

  lemma ContinueKeepsEntryAndStampInv(ledger: Ledger, purpose: Purpose, jobs: seq<Job>, f: Fill, i: nat, fetched: bool)
    requires Answerable(ledger, purpose, jobs) && |f.phases| == |f.stamps| == |jobs|
    requires EntryInv(jobs, f) && StampInv(ledger, purpose, jobs, f)
    ensures var f' := Continue(ledger, purpose, jobs, f, i, fetched);
            EntryInv(jobs, f') && StampInv(ledger, purpose, jobs, f')
  {
    ContinueKeepsEntryInv(ledger, purpose, jobs, f, i, fetched);
    ContinueKeepsStampInv(ledger, purpose, jobs, f, i, fetched);
  }

  // A step that leaves the stored lists of a registry and its pending closures alone.
  lemma OtherRegistryKept(ledger: Ledger, purpose: Purpose, jobs: seq<Job>, f: Fill, f': Fill, k: nat)
    requires Answerable(ledger, purpose, jobs) && |f.phases| == |f'.phases| == |jobs| && k < |jobs|
    requires forall n :: 0 <= n < |jobs| && jobs[n].registryId == jobs[k].registryId ==>
      f'.phases[n] == f.phases[n] || f'.phases[n].Failed? || f'.phases[n].FetchingList?
      || !(f.phases[n].FetchingList? || f.phases[n].Failed?)
    requires jobs[k].registryId in f.registries ==>
      jobs[k].registryId in f'.registries && f'.registries[jobs[k].registryId] == f.registries[jobs[k].registryId]
    requires Stored(ledger, purpose, f, jobs[k]) || Pending(jobs, f, jobs[k].registryId)
    ensures Stored(ledger, purpose, f', jobs[k]) || Pending(jobs, f', jobs[k].registryId)
  {
    if !Stored(ledger, purpose, f, jobs[k]) {
      var n :| 0 <= n < |jobs| && jobs[n].registryId == jobs[k].registryId
               && (f.phases[n].FetchingList? || f.phases[n].Failed?);
      assert f'.phases[n].FetchingList? || f'.phases[n].Failed?;
    }
  }

  lemma WritingEntryKeepsStoredInv(ledger: Ledger, purpose: Purpose, jobs: seq<Job>, f: Fill, i: nat)
    requires Answerable(ledger, purpose, jobs) && |f.phases| == |jobs| && i < |jobs|
    requires StoredInv(ledger, purpose, jobs, f) && !f.phases[i].Done?
    ensures StoredInv(ledger, purpose, jobs, StoreEntry(f, jobs[i], i))
  {
    var f' := StoreEntry(f, jobs[i], i);
    assert f'.phases[i].FetchingList?;
    forall k | 0 <= k < |jobs| && f'.phases[k].Done?
      ensures Stored(ledger, purpose, f', jobs[k]) || Pending(jobs, f', jobs[k].registryId)
    {
      if jobs[k].registryId != jobs[i].registryId { OtherRegistryKept(ledger, purpose, jobs, f, f', k); }
    }
  }

  lemma StoringListKeepsStoredInv(ledger: Ledger, purpose: Purpose, jobs: seq<Job>, f: Fill, i: nat)
    requires Answerable(ledger, purpose, jobs) && OneListPerRegistry(ledger, purpose, jobs)
    requires |f.phases| == |f.stamps| == |jobs| && i < |jobs| && f.phases[i].FetchingList?
    requires StoredInv(ledger, purpose, jobs, f) && EntryInv(jobs, f)
    ensures StoredInv(ledger, purpose, jobs, Continue(ledger, purpose, jobs, f, i, true))
  {
    var f' := Continue(ledger, purpose, jobs, f, i, true);
    assert Stored(ledger, purpose, f', jobs[i]);
    forall k | 0 <= k < |jobs| && f'.phases[k].Done?
      ensures Stored(ledger, purpose, f', jobs[k]) || Pending(jobs, f', jobs[k].registryId)
    {
      if jobs[k].registryId == jobs[i].registryId {
        SameKeySameList(ledger, purpose, jobs[i], jobs[k]);
      } else {
        OtherRegistryKept(ledger, purpose, jobs, f, f', k);
      }
    }
  }

  lemma ContinueKeepsInv(ledger: Ledger, purpose: Purpose, jobs: seq<Job>, f: Fill, i: nat, fetched: bool)
    requires Answerable(ledger, purpose, jobs) && OneListPerRegistry(ledger, purpose, jobs)
    requires |f.phases| == |f.stamps| == |jobs| && Inv(ledger, purpose, jobs, f)
    ensures Inv(ledger, purpose, jobs, Continue(ledger, purpose, jobs, f, i, fetched))
  {
    ContinueKeepsEntryAndStampInv(ledger, purpose, jobs, f, i, fetched);
    if i < |jobs| {
      var f' := Continue(ledger, purpose, jobs, f, i, fetched);
      if fetched && (f.phases[i].FetchingTails? || (f.phases[i].FetchingDefinition? && purpose.ForProof?)) {
        WritingEntryKeepsStoredInv(ledger, purpose, jobs, f, i);
      } else if fetched && f.phases[i].FetchingList? {
        StoringListKeepsStoredInv(ledger, purpose, jobs, f, i);
      } else {
        forall k | 0 <= k < |jobs| && f'.phases[k].Done?
          ensures Stored(ledger, purpose, f', jobs[k]) || Pending(jobs, f', jobs[k].registryId)
        {
          OtherRegistryKept(ledger, purpose, jobs, f, f', k);
        }
      }
    }
  }

  lemma {:induction false} RunKeepsInv(ledger: Ledger, purpose: Purpose, jobs: seq<Job>, schedule: seq<(nat, bool)>)
    requires Answerable(ledger, purpose, jobs) && OneListPerRegistry(ledger, purpose, jobs)
    ensures Inv(ledger, purpose, jobs, Run(ledger, purpose, jobs, schedule))
  {
    if schedule != [] {
      var front, last := schedule[..|schedule| - 1], schedule[|schedule| - 1];
      RunKeepsInv(ledger, purpose, jobs, front);
      ContinueKeepsInv(ledger, purpose, jobs, Run(ledger, purpose, jobs, front), last.0, last.1);
    }
  }

  // ---- With two lists for one registry some interleaving loses one ----

  // Closure `i` runs to its end.
  function Alone(i: nat): seq<(nat, bool)> {
    [(i, true), (i, true), (i, true)]
  }

  // All closures before `n` but closure `last` run one after the other.
  function InOrder(n: nat, last: nat): seq<(nat, bool)> {
    if n == 0 then []
    else if n - 1 == last then InOrder(n - 1, last)
    else InOrder(n - 1, last) + Alone(n - 1)
  }

  lemma RunThreeMore(ledger: Ledger, purpose: Purpose, jobs: seq<Job>, schedule: seq<(nat, bool)>, i: nat)
    ensures var f := Run(ledger, purpose, jobs, schedule);
            var f1 := Continue(ledger, purpose, jobs, f, i, true);
            var f2 := Continue(ledger, purpose, jobs, f1, i, true);
            Run(ledger, purpose, jobs, schedule + Alone(i)) == Continue(ledger, purpose, jobs, f2, i, true)
  {
    var s3 := schedule + Alone(i);
    var s2 := schedule + [(i, true), (i, true)];
    var s1 := schedule + [(i, true)];
    assert s3[..|s3| - 1] == s2 && s2[..|s2| - 1] == s1 && s1[..|s1| - 1] == schedule;
    assert Run(ledger, purpose, jobs, s1) ==
      Continue(ledger, purpose, jobs, Run(ledger, purpose, jobs, schedule), i, true);
    assert Run(ledger, purpose, jobs, s2) == Continue(ledger, purpose, jobs, Run(ledger, purpose, jobs, s1), i, true);
  }

  lemma AloneCompletes(ledger: Ledger, purpose: Purpose, jobs: seq<Job>, f: Fill, i: nat)
    requires Answerable(ledger, purpose, jobs) && |f.phases| == |f.stamps| == |jobs| && i < |jobs|
    requires f.phases[i].FetchingDefinition?
    ensures var f1 := Continue(ledger, purpose, jobs, f, i, true);
            var f2 := Continue(ledger, purpose, jobs, f1, i, true);
            var f3 := Continue(ledger, purpose, jobs, f2, i, true);
            && f3.phases == f.phases[i := Done] && |f3.stamps| == |jobs|
            && jobs[i].registryId in f3.registries
            && f3.registries[jobs[i].registryId].Keys == {Key(ledger, purpose, jobs[i])}
  {
  }

  lemma RunAloneNext(ledger: Ledger, purpose: Purpose, jobs: seq<Job>, schedule: seq<(nat, bool)>, i: nat)
    requires Answerable(ledger, purpose, jobs) && i < |jobs|
    requires Run(ledger, purpose, jobs, schedule).phases[i].FetchingDefinition?
    ensures var f, f' := Run(ledger, purpose, jobs, schedule), Run(ledger, purpose, jobs, schedule + Alone(i));
            && f'.phases == f.phases[i := Done]
            && jobs[i].registryId in f'.registries
            && f'.registries[jobs[i].registryId].Keys == {Key(ledger, purpose, jobs[i])}
  {
    RunThreeMore(ledger, purpose, jobs, schedule, i);
    AloneCompletes(ledger, purpose, jobs, Run(ledger, purpose, jobs, schedule), i);
  }

  function PhasesInOrder(count: nat, n: nat, last: nat): seq<Phase> {
    seq(count, k => if k < n && k != last then Done else FetchingDefinition)
  }

  lemma PhasesInOrderNext(count: nat, n: nat, last: nat)
    requires 0 < n <= count
    ensures PhasesInOrder(count, n, last) ==
            if n - 1 == last then PhasesInOrder(count, n - 1, last) else PhasesInOrder(count, n - 1, last)[n - 1 := Done]
  {
  }

  lemma NothingRanYet(jobs: seq<Job>, last: nat)
    ensures Launched(jobs).phases == PhasesInOrder(|jobs|, 0, last)
  {
  }

  lemma OneMoreInOrder(ledger: Ledger, purpose: Purpose, jobs: seq<Job>, before: seq<(nat, bool)>, n: nat, last: nat)
    requires Answerable(ledger, purpose, jobs) && n < |jobs| && n != last
    requires Run(ledger, purpose, jobs, before).phases == PhasesInOrder(|jobs|, n, last)
    ensures Run(ledger, purpose, jobs, before + Alone(n)).phases == PhasesInOrder(|jobs|, n + 1, last)
  {
    RunAloneNext(ledger, purpose, jobs, before, n);
    PhasesInOrderNext(|jobs|, n + 1, last);
  }

  lemma InOrderNext(n: nat, last: nat)
    ensures InOrder(n + 1, last) == if n == last then InOrder(n, last) else InOrder(n, last) + Alone(n)
  {
  }

  lemma InOrderStep(ledger: Ledger, purpose: Purpose, jobs: seq<Job>, before: seq<(nat, bool)>, after: seq<(nat, bool)>,
                    n: nat, last: nat)
    requires Answerable(ledger, purpose, jobs) && n < |jobs| && last < |jobs|
    requires after == if n == last then before else before + Alone(n)
    requires Run(ledger, purpose, jobs, before).phases == PhasesInOrder(|jobs|, n, last)
    ensures Run(ledger, purpose, jobs, after).phases == PhasesInOrder(|jobs|, n + 1, last)
  {
    if n == last {
      PhasesInOrderNext(|jobs|, n + 1, last);
    } else {
      OneMoreInOrder(ledger, purpose, jobs, before, n, last);
    }
  }

  lemma {:induction false} InOrderCompletes(ledger: Ledger, purpose: Purpose, jobs: seq<Job>, n: nat, last: nat)
    requires Answerable(ledger, purpose, jobs) && n <= |jobs| && last < |jobs|
    ensures Run(ledger, purpose, jobs, InOrder(n, last)).phases == PhasesInOrder(|jobs|, n, last)
  {
    if n == 0 {
      NothingRanYet(jobs, last);
    } else {
      InOrderCompletes(ledger, purpose, jobs, n - 1, last);
      InOrderNext(n - 1, last);
      InOrderStep(ledger, purpose, jobs, InOrder(n - 1, last), InOrder(n, last), n - 1, last);
    }
  }

  lemma LastWriterWins(ledger: Ledger, purpose: Purpose, jobs: seq<Job>, i: nat, last: nat)
    returns (schedule: seq<(nat, bool)>)
    requires Answerable(ledger, purpose, jobs) && i < |jobs| && last < |jobs|
    requires jobs[i].registryId == jobs[last].registryId
    requires Key(ledger, purpose, jobs[i]) != Key(ledger, purpose, jobs[last])
    ensures var f := Run(ledger, purpose, jobs, schedule); Complete(f) && !AllFound(ledger, purpose, jobs, f)
  {
    InOrderCompletes(ledger, purpose, jobs, |jobs|, last);
    RunAloneNext(ledger, purpose, jobs, InOrder(|jobs|, last), last);
    schedule := InOrder(|jobs|, last) + Alone(last);
    var f := Run(ledger, purpose, jobs, schedule);
    assert f.registries[jobs[i].registryId].Keys == {Key(ledger, purpose, jobs[last])};
  }

  // ---- A selected timestamp that is not a list's ----

  // For a request every list is stored under its own timestamp.
  ghost predicate KeyInv(f: Fill) {
    forall id, k :: id in f.registries && k in f.registries[id] ==> f.registries[id][k].timestamp == k
  }

  lemma {:induction false} RunKeepsKeyAndStampInv(ledger: Ledger, jobs: seq<Job>, schedule: seq<(nat, bool)>)
    requires Answerable(ledger, ForRequest, jobs)
    ensures var f := Run(ledger, ForRequest, jobs, schedule);
            KeyInv(f) && EntryInv(jobs, f) && StampInv(ledger, ForRequest, jobs, f)
  {
    if schedule != [] {
      var front, last := schedule[..|schedule| - 1], schedule[|schedule| - 1];
      RunKeepsKeyAndStampInv(ledger, jobs, front);
      ContinueKeepsEntryAndStampInv(
        ledger, ForRequest, jobs, Run(ledger, ForRequest, jobs, front), last.0, last.1);
    }
  }

  /** The holder does not find a list under a selected timestamp that is not a list's, whatever order the closures run
      in. */
  lemma OtherTimestampIsNotFound(ledger: Ledger, jobs: seq<Job>, schedule: seq<(nat, bool)>, i: nat)
    requires Answerable(ledger, ForRequest, jobs) && i < |jobs| && !SelectsAList(ledger, ForRequest, jobs[i])
    ensures !AllFound(ledger, ForRequest, jobs, Run(ledger, ForRequest, jobs, schedule))
  {
    RunKeepsKeyAndStampInv(ledger, jobs, schedule);
    AtIsLatest(ledger[jobs[i].registryId], ToFetch(jobs[i]));
    assert Truthy(jobs[i].timestamp);
  }

  lemma SomeRunCompletes(ledger: Ledger, purpose: Purpose, jobs: seq<Job>, last: nat)
    returns (schedule: seq<(nat, bool)>)
    requires Answerable(ledger, purpose, jobs) && last < |jobs|
    ensures Complete(Run(ledger, purpose, jobs, schedule))
  {
    InOrderCompletes(ledger, purpose, jobs, |jobs|, last);
    RunAloneNext(ledger, purpose, jobs, InOrder(|jobs|, last), last);
    schedule := InOrder(|jobs|, last) + Alone(last);
  }

  // ---- Exactly when no list is lost ----

  lemma CompleteRunFindsAll(ledger: Ledger, purpose: Purpose, jobs: seq<Job>, schedule: seq<(nat, bool)>)
    requires Answerable(ledger, purpose, jobs) && OneListPerRegistry(ledger, purpose, jobs)
    requires SelectedAreLists(ledger, purpose, jobs) && Complete(Run(ledger, purpose, jobs, schedule))
    ensures AllFound(ledger, purpose, jobs, Run(ledger, purpose, jobs, schedule))
  {
    RunKeepsInv(ledger, purpose, jobs, schedule);
    var f := Run(ledger, purpose, jobs, schedule);
    forall i | 0 <= i < |jobs| ensures Stored(ledger, purpose, f, jobs[i]) {
      assert !Pending(jobs, f, jobs[i].registryId);
    }
    if purpose.ForRequest? {
      forall i | 0 <= i < |jobs| ensures Key(ledger, purpose, jobs[i]) != 0 && SelectsAList(ledger, purpose, jobs[i]) {
        AtIsLatest(ledger[jobs[i].registryId], ToFetch(jobs[i]));
      }
    }
  }

  /** Whatever order the closures run in, every list is there in the end and every lookup of the holder finds its own
      list, exactly when all closures of one registry use one list and each selected timestamp is a list's. */
  lemma NoInterleavingLosesAListExactlyWhen(ledger: Ledger, purpose: Purpose, jobs: seq<Job>)
    requires Answerable(ledger, purpose, jobs)
    ensures OneListPerRegistry(ledger, purpose, jobs) && SelectedAreLists(ledger, purpose, jobs) <==>
      forall schedule :: var f := Run(ledger, purpose, jobs, schedule);
                         Complete(f) ==> AllFound(ledger, purpose, jobs, f)
  {
    if !SelectedAreLists(ledger, purpose, jobs) {
      var i: nat :| i < |jobs| && !SelectsAList(ledger, purpose, jobs[i]);
      var schedule := SomeRunCompletes(ledger, purpose, jobs, i);
      OtherTimestampIsNotFound(ledger, jobs, schedule, i);
    } else if OneListPerRegistry(ledger, purpose, jobs) {
      forall schedule | Complete(Run(ledger, purpose, jobs, schedule))
        ensures AllFound(ledger, purpose, jobs, Run(ledger, purpose, jobs, schedule))
      {
        CompleteRunFindsAll(ledger, purpose, jobs, schedule);
      }
    } else {
      var i, k :| 0 <= i < |jobs| && 0 <= k < |jobs| && jobs[i].registryId == jobs[k].registryId
                  && Key(ledger, purpose, jobs[i]) != Key(ledger, purpose, jobs[k]);
      var schedule := LastWriterWins(ledger, purpose, jobs, i, k);
    }
  }

  /** The timestamps that `getRevocationStatus` chose satisfy that condition, when the referents of one registry ask
      for one interval. */
  lemma ChosenTimestampsShareAList(ledger: Ledger, jobs: seq<Job>, requested: seq<Interval>, indices: seq<nat>)
    requires forall id :: id in ledger ==> Published(ledger[id])
    requires |requested| == |indices| == |jobs|
    requires forall i :: 0 <= i < |jobs| ==> jobs[i].registryId in ledger
    requires forall i :: 0 <= i < |jobs| ==>
      var s := GetRevocationStatus(ledger[jobs[i].registryId], Some(requested[i]), Some(indices[i]));
      s.Status? && jobs[i].timestamp == Some(s.timestamp)
    requires forall i, k :: 0 <= i < |jobs| && 0 <= k < |jobs| && jobs[i].registryId == jobs[k].registryId ==>
      requested[i] == requested[k]
    ensures Answerable(ledger, ForRequest, jobs)
    ensures OneListPerRegistry(ledger, ForRequest, jobs) && SelectedAreLists(ledger, ForRequest, jobs)
  {
    forall i | 0 <= i < |jobs|
      ensures Answer(ledger, jobs[i]).Some? && jobs[i].timestamp != Some(0)
      ensures Answer(ledger, jobs[i]).value.timestamp == jobs[i].timestamp.value
    {
      StatusNamesAPublishedList(ledger[jobs[i].registryId], Some(requested[i]), Some(indices[i]));
    }
  }
}
