/** The request queue of kernel/device.c: requests sorted by sector, one of them being served by its
    own task, the others blocked until the served one hands the disk on. */
module Elevators {
  import opened Basics
  import opened Sequences
  import opened IntrusiveLists

  /** `task` is the task recorded for a blocked request; the request that found the queue empty has
      none.  `running` says that the owner is not blocked. */
  datatype Request = Request(sector: nat, task: Option<nat>, running: bool)

  datatype Elevator = Elevator(reqs: seq<Request>, up: bool)

  /** Sectors are unsigned words but the insertion sort compares them as signed integers. */
  function SectorKeys(reqs: seq<Request>): (r: seq<int>)
    ensures |r| == |reqs|
    ensures forall i :: 0 <= i < |r| ==> r[i] == AsInt32(reqs[i].sector)
  {
    seq(|reqs|, i requires 0 <= i < |reqs| => AsInt32(reqs[i].sector))
  }

  function Sectors(reqs: seq<Request>): seq<nat> {
    seq(|reqs|, i requires 0 <= i < |reqs| => reqs[i].sector)
  }

  // ---------------------------------------------------------------- the steps

  /** device_request up to the point where the task blocks or starts the transfer. */
  function Arrive(e: Elevator, sector: nat, task: nat): Elevator {
    var req := Request(sector, if e.reqs == [] then None else Some(task), e.reqs == []);
    Elevator(InsertAt(e.reqs, InsertIndex(SectorKeys(e.reqs), AsInt32(sector)), req), e.up)
  }

  /** The direction request_nextreq leaves: it flips at the end it moves towards. */
  function Turn(n: nat, up: bool, k: nat): bool {
    if up && k == n - 1 then false else if !up && k == 0 then true else up
  }

  /** request_nextreq for the request at position k of n; None for the list's own end nodes. */
  function NextReq(n: nat, up: bool, k: nat): Option<nat>
    requires k < n
  {
    if Turn(n, up, k) then (if k + 1 == n then None else Some(k + 1))
    else if k == 0 then None else Some(k - 1)
  }

  function Woken(req: Request): Request {
    Request(req.sector, req.task, true)
  }

  /** device_request behind the transfer: choose the next request, unlink this one, wake the next. */
  function Finish(e: Elevator, k: nat): Elevator
    requires k < |e.reqs|
  {
    var up := Turn(|e.reqs|, e.up, k);
    match NextReq(|e.reqs|, e.up, k)
    case None => Elevator(RemoveAt(e.reqs, k), up)
    case Some(j) => Elevator(RemoveAt(e.reqs[j := Woken(e.reqs[j])], k), up)
  }

  // ---------------------------------------------------------------- the hand-off

  /** The request at position k is the only one being served. */
  predicate OnlyRunning(reqs: seq<Request>, k: nat) {
    k < |reqs| && forall i :: 0 <= i < |reqs| ==> (reqs[i].running <==> i == k)
  }

  /** Sorted; while there is a request exactly one is served; the others are blocked tasks on record. */
  ghost predicate Inv(e: Elevator) {
    && Ascending(SectorKeys(e.reqs))
    && (e.reqs != [] ==> exists k: nat :: OnlyRunning(e.reqs, k))
    && (forall i :: 0 <= i < |e.reqs| && !e.reqs[i].running ==> e.reqs[i].task.Some?)
  }

  /** NULL comes back only when nothing else is queued, whichever way the disk was moving. */
  lemma NextReqIsNullOnlyAlone(n: nat, up: bool, k: nat)
    requires k < n
    ensures NextReq(n, up, k).None? <==> n == 1
    ensures NextReq(n, up, k).Some? ==> NextReq(n, up, k).value < n && NextReq(n, up, k).value != k
  {}

  lemma SectorKeysOfInsert(reqs: seq<Request>, i: nat, req: Request)
    requires i <= |reqs|
    ensures SectorKeys(InsertAt(reqs, i, req)) == InsertAt(SectorKeys(reqs), i, AsInt32(req.sector))
  {}

  lemma ArriveRuns(e: Elevator, sector: nat, task: nat, k: nat)
    requires e.reqs == [] || OnlyRunning(e.reqs, k)
    ensures var i := InsertIndex(SectorKeys(e.reqs), AsInt32(sector));
      OnlyRunning(Arrive(e, sector, task).reqs, if e.reqs == [] then 0 else if i <= k then k + 1 else k)
  {
    hide InsertIndex, SectorKeys, AsInt32;
  }

  lemma ArriveKeeps(e: Elevator, sector: nat, task: nat)
    requires Inv(e)
    ensures Inv(Arrive(e, sector, task))
  {
    var i := InsertIndex(SectorKeys(e.reqs), AsInt32(sector));
    var req := Request(sector, if e.reqs == [] then None else Some(task), e.reqs == []);
    InsertKeepsAscending(SectorKeys(e.reqs), AsInt32(sector));
    SectorKeysOfInsert(e.reqs, i, req);
    hide InsertIndex, SectorKeys, AsInt32, Ascending;
    if e.reqs == [] {
      ArriveRuns(e, sector, task, 0);
    } else {
      var k: nat :| OnlyRunning(e.reqs, k);
      ArriveRuns(e, sector, task, k);
    }
    hide OnlyRunning;
  }

  /** Where the request at position j is once that at position k has been unlinked. */
  function Shifted(k: nat, j: nat): nat {
    if j > k then j - 1 else j
  }

  /** The served request leaves, the next one is served, and nextreq->task was on record. */
  lemma FinishKeeps(e: Elevator, k: nat)
    requires Inv(e) && OnlyRunning(e.reqs, k)
    ensures Inv(Finish(e, k))
    ensures NextReq(|e.reqs|, e.up, k).Some? ==>
      var j := NextReq(|e.reqs|, e.up, k).value;
      e.reqs[j].task.Some? && OnlyRunning(Finish(e, k).reqs, Shifted(k, j))
  {
    NextReqIsNullOnlyAlone(|e.reqs|, e.up, k);
    FinishKeys(e, k);
    RemoveAscending(SectorKeys(e.reqs), k);
    hide SectorKeys, Ascending, Turn, NextReq;
    if NextReq(|e.reqs|, e.up, k).Some? {
      var j := NextReq(|e.reqs|, e.up, k).value;
      assert OnlyRunning(Finish(e, k).reqs, Shifted(k, j));
    }
  }

  lemma RemoveAscending(keys: seq<int>, k: nat)
    requires Ascending(keys) && k < |keys|
    ensures Ascending(RemoveAt(keys, k))
  {}

  lemma WokenKeys(reqs: seq<Request>, j: nat)
    requires j < |reqs|
    ensures SectorKeys(reqs[j := Woken(reqs[j])]) == SectorKeys(reqs) && Sectors(reqs[j := Woken(reqs[j])]) == Sectors(reqs)
  {}

  lemma RemoveKeys(reqs: seq<Request>, k: nat)
    requires k < |reqs|
    ensures SectorKeys(RemoveAt(reqs, k)) == RemoveAt(SectorKeys(reqs), k)
    ensures Sectors(RemoveAt(reqs, k)) == RemoveAt(Sectors(reqs), k)
  {}

  lemma FinishKeys(e: Elevator, k: nat)
    requires k < |e.reqs|
    ensures SectorKeys(Finish(e, k).reqs) == RemoveAt(SectorKeys(e.reqs), k)
    ensures Sectors(Finish(e, k).reqs) == RemoveAt(Sectors(e.reqs), k)
    ensures |Finish(e, k).reqs| == |e.reqs| - 1
    ensures Finish(e, k).up == Turn(|e.reqs|, e.up, k)
  {
    hide Turn, NextReq, RemoveAt, SectorKeys, Sectors, Woken;
    RemoveKeys(e.reqs, k);
    if NextReq(|e.reqs|, e.up, k).Some? {
      NextReqIsNullOnlyAlone(|e.reqs|, e.up, k);
      var j := NextReq(|e.reqs|, e.up, k).value;
      WokenKeys(e.reqs, j);
      RemoveKeys(e.reqs[j := Woken(e.reqs[j])], k);
    }
  }

  // ---------------------------------------------------------------- runs

  /** An arrival, or the end of the transfer of the request at position k. */
  datatype Event = Arrival(sector: nat, task: nat) | Done(k: nat)

  /** Arrivals and completions in any order; only the served request completes. */
  ghost predicate Run(e: Elevator, events: seq<Event>, e': Elevator)
    decreases |events|
  {
    if events == [] then e' == e
    else match events[0]
      case Arrival(sector, task) => Run(Arrive(e, sector, task), events[1..], e')
      case Done(k) => OnlyRunning(e.reqs, k) && Run(Finish(e, k), events[1..], e')
  }

  /** Sectors that arrived during the events, and sectors served. */
  function Arrived(events: seq<Event>): multiset<nat> {
    if events == [] then multiset{}
    else (if events[0].Arrival? then multiset{events[0].sector} else multiset{}) + Arrived(events[1..])
  }

  ghost function Served(e: Elevator, events: seq<Event>): multiset<nat>
    decreases |events|
  {
    if events == [] then multiset{}
    else match events[0]
      case Arrival(sector, task) => Served(Arrive(e, sector, task), events[1..])
      case Done(k) =>
        if k < |e.reqs| then multiset{e.reqs[k].sector} + Served(Finish(e, k), events[1..]) else multiset{}
  }

  lemma ArriveCounts(e: Elevator, sector: nat, task: nat)
    ensures multiset(Sectors(Arrive(e, sector, task).reqs)) == multiset(Sectors(e.reqs)) + multiset{sector}
  {
    hide InsertIndex, SectorKeys, AsInt32;
    var i := InsertIndex(SectorKeys(e.reqs), AsInt32(sector));
    InsertThenRemove(Sectors(e.reqs), i, sector);
    assert Sectors(Arrive(e, sector, task).reqs) == InsertAt(Sectors(e.reqs), i, sector);
    hide Arrive, InsertAt, Sectors;
  }

  lemma FinishCounts(e: Elevator, k: nat)
    requires k < |e.reqs|
    ensures multiset(Sectors(e.reqs)) == multiset(Sectors(Finish(e, k).reqs)) + multiset{e.reqs[k].sector}
  {
    FinishKeys(e, k);
    hide Finish, Turn, NextReq, SectorKeys;
    var s := Sectors(e.reqs);
    var after := RemoveAt(s, k);
    assert InsertAt(after, k, s[k]) == s;
    InsertThenRemove(after, k, s[k]);
  }

  lemma CountsUnfold(e: Elevator, events: seq<Event>)
    ensures events == [] ==> Arrived(events) == multiset{} == Served(e, events)
    ensures events != [] && events[0].Arrival? ==>
      && Arrived(events) == multiset{events[0].sector} + Arrived(events[1..])
      && Served(e, events) == Served(Arrive(e, events[0].sector, events[0].task), events[1..])
    ensures events != [] && events[0].Done? && events[0].k < |e.reqs| ==>
      && Arrived(events) == Arrived(events[1..])
      && Served(e, events) == multiset{e.reqs[events[0].k].sector} + Served(Finish(e, events[0].k), events[1..])
  {
    hide Arrive, Finish;
  }

  /** Over every interleaving: the queue stays sorted, exactly one request is served while any is queued,
      every other one is a blocked task on record, and each arrival is queued or served exactly once. */
  lemma {:induction false} HandOff(e: Elevator, events: seq<Event>, e': Elevator)
    requires Inv(e) && Run(e, events, e')
    ensures Inv(e')
    ensures multiset(Sectors(e.reqs)) + Arrived(events) == multiset(Sectors(e'.reqs)) + Served(e, events)
    decreases |events|
  {
    hide Inv, Arrive, Finish, Sectors, Served, Arrived;
    CountsUnfold(e, events);
    if events != [] {
      match events[0] {
        case Arrival(sector, task) =>
          ArriveKeeps(e, sector, task);
          ArriveCounts(e, sector, task);
          HandOff(Arrive(e, sector, task), events[1..], e');
        case Done(k) =>
          FinishKeeps(e, k);
          FinishCounts(e, k);
          HandOff(Finish(e, k), events[1..], e');
          Rearrange(multiset(Sectors(Finish(e, k).reqs)), Arrived(events[1..]), multiset(Sectors(e'.reqs)),
                    Served(Finish(e, k), events[1..]), multiset{e.reqs[k].sector});
      }
    }
  }

  lemma Rearrange(a: multiset<nat>, b: multiset<nat>, c: multiset<nat>, d: multiset<nat>, x: multiset<nat>)
    requires a + b == c + d
    ensures a + x + b == c + (x + d)
  {
    assert a + x + b == (a + b) + x;
    assert c + (x + d) == (c + d) + x;
  }

  lemma EmptyInv(up: bool)
    ensures Inv(Elevator([], up))
  {}

  /** From an idle disk: whatever arrived is queued or has been served, once each, and with nothing queued any
      more everything has been served. */
  lemma FromIdle(up: bool, events: seq<Event>, e': Elevator)
    requires Run(Elevator([], up), events, e')
    ensures Inv(e')
    ensures Arrived(events) == multiset(Sectors(e'.reqs)) + Served(Elevator([], up), events)
    ensures e'.reqs == [] ==> Served(Elevator([], up), events) == Arrived(events)
  {
    EmptyInv(up);
    HandOff(Elevator([], up), events, e');
  }

  /** On a disk of less than 2^31 sectors the queue is in the order of the sectors. */
  lemma SectorsAscend(e: Elevator, i: nat, j: nat)
    requires Inv(e) && i < j < |e.reqs| && e.reqs[i].sector < 0x8000_0000 && e.reqs[j].sector < 0x8000_0000
    ensures e.reqs[i].sector <= e.reqs[j].sector
  {
    assert SectorKeys(e.reqs)[i] <= SectorKeys(e.reqs)[j];
  }

  /** So a disk that moves up goes on to the sector next above, or if there is none turns to the one next below; a disk
      that moves down the other way round. */
  lemma NextSector(e: Elevator, k: nat, i: nat)
    requires Inv(e) && k < |e.reqs| && i < |e.reqs| && i != k
    requires forall x :: 0 <= x < |e.reqs| ==> e.reqs[x].sector < 0x8000_0000
    ensures NextReq(|e.reqs|, e.up, k).Some?
    ensures var j := NextReq(|e.reqs|, e.up, k).value;
      && j < |e.reqs| && j != k
      && (if (e.up && k + 1 < |e.reqs|) || (!e.up && k == 0)
          then e.reqs[k].sector <= e.reqs[j].sector && (i > k ==> e.reqs[j].sector <= e.reqs[i].sector)
          else e.reqs[j].sector <= e.reqs[k].sector && (i < k ==> e.reqs[i].sector <= e.reqs[j].sector))
  {
    NextReqIsNullOnlyAlone(|e.reqs|, e.up, k);
    var j := NextReq(|e.reqs|, e.up, k).value;
    if j < k {
      SectorsAscend(e, j, k);
    } else {
      SectorsAscend(e, k, j);
    }
    if i < j {
      SectorsAscend(e, i, j);
    } else if j < i {
      SectorsAscend(e, j, i);
    }
    hide Inv;
  }

  // ---------------------------------------------------------------- whose task is woken

  /** A request with this sector is queued on behalf of this task, which is on record with it. */
  predicate Records(reqs: seq<Request>, sector: nat, task: nat) {
    exists i :: 0 <= i < |reqs| && reqs[i].sector == sector && reqs[i].task == Some(task)
  }

  lemma ArriveRecords(e: Elevator, sector: nat, task: nat, s: nat, t: nat)
    ensures Records(Arrive(e, sector, task).reqs, s, t) <==>
      Records(e.reqs, s, t) || (e.reqs != [] && s == sector && t == task)
  {
    hide InsertIndex, SectorKeys, AsInt32;
    var i := InsertIndex(SectorKeys(e.reqs), AsInt32(sector));
    var after := Arrive(e, sector, task).reqs;
    assert after[i].sector == sector && after[i].task == if e.reqs == [] then None else Some(task);
    if j :| 0 <= j < |e.reqs| && e.reqs[j].sector == s && e.reqs[j].task == Some(t) {
      assert after[if j < i then j else j + 1] == e.reqs[j];
    }
  }

  lemma FinishRecords(e: Elevator, k: nat, s: nat, t: nat)
    requires k < |e.reqs| && Records(Finish(e, k).reqs, s, t)
    ensures Records(e.reqs, s, t)
  {
    NextReqIsNullOnlyAlone(|e.reqs|, e.up, k);
    hide NextReq, Turn;
    var after := Finish(e, k).reqs;
    var i :| 0 <= i < |after| && after[i].sector == s && after[i].task == Some(t);
    var j := if i < k then i else i + 1;
    assert e.reqs[j].sector == after[i].sector && e.reqs[j].task == after[i].task;
  }

  /** Over every interleaving from an idle disk: the task on record for a sector, which is the one that is woken when
      its turn comes, is one that asked for just that sector. */
  lemma {:induction false} RecordsWhoAsked(e: Elevator, events: seq<Event>, e': Elevator, s: nat, t: nat)
    requires Run(e, events, e') && Records(e'.reqs, s, t)
    ensures Records(e.reqs, s, t) || Arrival(s, t) in events
    decreases |events|
  {
    hide Arrive, Finish, Records;
    if events != [] {
      match events[0] {
        case Arrival(sector, task) =>
          RecordsWhoAsked(Arrive(e, sector, task), events[1..], e', s, t);
          ArriveRecords(e, sector, task, s, t);
        case Done(k) =>
          RecordsWhoAsked(Finish(e, k), events[1..], e', s, t);
          if Records(Finish(e, k).reqs, s, t) {
            FinishRecords(e, k, s, t);
          }
      }
    }
  }

  /** While a request is being served the task of every later arrival is on record until its request is chosen. */
  lemma ArrivalIsRecorded(e: Elevator, sector: nat, task: nat)
    requires e.reqs != []
    ensures Records(Arrive(e, sector, task).reqs, sector, task)
  {
    ArriveRecords(e, sector, task, sector, task);
  }

  // ---------------------------------------------------------------- service order

  /** The keys in the order they are served from position k when nothing more arrives. */
  function Order(e: Elevator, k: nat): seq<int>
    requires k < |e.reqs|
    decreases |e.reqs|
  {
    [AsInt32(e.reqs[k].sector)] +
    match NextReq(|e.reqs|, e.up, k)
    case None => []
    case Some(j) => Order(Finish(e, k), Shifted(k, j))
  }

  /** Up to the top and then down through the rest, or the mirror image. */
  function Sweep(keys: seq<int>, up: bool, k: nat): seq<int>
    requires k < |keys|
  {
    if up then keys[k..] + Reversed(keys[..k]) else Reversed(keys[..k + 1]) + keys[k + 1..]
  }

  /** A sweep takes its own key first, then the keys above and below it. */
  lemma SweepAt(keys: seq<int>, up: bool, k: nat)
    requires k < |keys|
    ensures var lower, upper := keys[..k], keys[k + 1..];
      Sweep(keys, up, k) == [keys[k]] + (if up then upper + Reversed(lower) else Reversed(lower) + upper)
  {
    var lower, upper := keys[..k], keys[k + 1..];
    if up {
      assert keys[k..] == [keys[k]] + upper;
      Associative([keys[k]], upper, Reversed(lower));
    } else {
      assert keys[..k + 1] == lower + [keys[k]];
      ReversedSnoc(lower, keys[k]);
      Associative([keys[k]], Reversed(lower), upper);
    }
    hide Reversed;
  }

  lemma Associative<T>(a: seq<T>, b: seq<T>, c: seq<T>)
    ensures (a + b) + c == a + (b + c)
  {}

  /** The sweep that stands between two parts, at the end of one of them. */
  lemma SweepBetween(lower: seq<int>, upper: seq<int>)
    ensures upper != [] ==> Sweep(lower + upper, true, |lower|) == upper + Reversed(lower)
    ensures lower != [] ==> Sweep(lower + upper, false, |lower| - 1) == Reversed(lower) + upper
  {
    var keys := lower + upper;
    assert keys[..|lower|] == lower && keys[|lower|..] == upper;
  }

  /** One step of a sweep serves position k and leaves a sweep of the other keys. */
  lemma SweepStep(keys: seq<int>, up: bool, k: nat)
    requires k < |keys| && |keys| > 1
    ensures NextReq(|keys|, up, k).Some?
    ensures var j := NextReq(|keys|, up, k).value;
      Shifted(k, j) < |keys| - 1 &&
      Sweep(keys, up, k) == [keys[k]] + Sweep(RemoveAt(keys, k), Turn(|keys|, up, k), Shifted(k, j))
  {
    var lower, upper := keys[..k], keys[k + 1..];
    assert RemoveAt(keys, k) == lower + upper;
    SweepAt(keys, up, k);
    SweepBetween(lower, upper);
    assert k == 0 ==> upper + Reversed(lower) == Reversed(lower) + upper;
    assert k == |keys| - 1 ==> upper + Reversed(lower) == Reversed(lower) + upper;
    hide Reversed, RemoveAt, Sweep;
  }

  /** Moving up from position k the queue is served ascending to the top, then descending through the
      rest; moving down, the mirror image. */
  lemma {:induction false} ServiceOrder(e: Elevator, k: nat)
    requires k < |e.reqs|
    ensures Order(e, k) == Sweep(SectorKeys(e.reqs), e.up, k)
    decreases |e.reqs|
  {
    hide Finish, Sweep, Turn, NextReq;
    NextReqIsNullOnlyAlone(|e.reqs|, e.up, k);
    if |e.reqs| > 1 {
      FinishKeys(e, k);
      SweepStep(SectorKeys(e.reqs), e.up, k);
      ServiceOrder(Finish(e, k), Shifted(k, NextReq(|e.reqs|, e.up, k).value));
    } else {
      SweepOfOne(SectorKeys(e.reqs), e.up);
    }
  }

  lemma SweepOfOne(keys: seq<int>, up: bool)
    requires |keys| == 1
    ensures Sweep(keys, up, 0) == [keys[0]]
  {
    assert keys[0..] == keys && keys[..0] == [] && keys[1..] == [] && keys[..1] == keys;
    assert Reversed(keys[1..]) == [];
  }

  // ---------------------------------------------------------------- travel and turns

  function Abs(x: int): nat {
    if x < 0 then -x else x
  }

  /** The head movement along a sequence of positions. */
  function Travel(s: seq<int>): nat {
    if |s| < 2 then 0 else Abs(s[1] - s[0]) + Travel(s[1..])
  }

  lemma {:induction false} TravelSplit(a: seq<int>, b: seq<int>)
    requires a != [] && b != []
    ensures Travel(a + b) == Travel(a) + Abs(b[0] - a[|a| - 1]) + Travel(b)
  {
    assert (a + b)[1..] == a[1..] + b;
    if |a| > 1 {
      TravelSplit(a[1..], b);
    }
  }

  lemma {:induction false} TravelAscending(s: seq<int>)
    requires Ascending(s) && s != []
    ensures Travel(s) == s[|s| - 1] - s[0]
  {
    if |s| > 1 {
      TravelAscending(s[1..]);
    }
  }

  lemma {:induction false} TravelReversed(s: seq<int>)
    requires Ascending(s) && s != []
    ensures Reversed(s)[0] == s[|s| - 1] && Reversed(s)[|s| - 1] == s[0]
    ensures Travel(Reversed(s)) == s[|s| - 1] - s[0]
  {
    if |s| > 1 {
      TravelReversed(s[1..]);
      TravelSplit(Reversed(s[1..]), [s[0]]);
    } else {
      assert Reversed(s) == s;
    }
  }

  lemma AscendingSlice(s: seq<int>, i: nat, j: nat)
    requires Ascending(s) && i <= j <= |s|
    ensures Ascending(s[i..j])
  {}

  /** There is a first and a last position of an ascending sequence, and everything lies between. */
  lemma Ends(s: seq<int>, k: nat)
    requires Ascending(s) && k < |s|
    ensures s[0] <= s[k] <= s[|s| - 1]
  {}

  lemma UpTravel(keys: seq<int>, k: nat)
    requires k < |keys| && Ascending(keys)
    ensures Travel(Sweep(keys, true, k)) ==
      (keys[|keys| - 1] - keys[k]) + (if k > 0 then keys[|keys| - 1] - keys[0] else 0)
  {
    var n := |keys|;
    var upper, lower := keys[k..], keys[..k];
    assert keys[k..n] == upper && keys[0..k] == lower;
    AscendingSlice(keys, k, n);
    AscendingSlice(keys, 0, k);
    if k > 0 {
      Ends(keys, k - 1);
    }
    hide Ascending, Travel, Reversed;
    TravelAscending(upper);
    assert upper[|upper| - 1] == keys[n - 1];
    if k > 0 {
      TravelReversed(lower);
      TravelSplit(upper, Reversed(lower));
      assert lower[k - 1] == keys[k - 1];
    } else {
      assert upper + Reversed(lower) == upper;
    }
  }

  lemma DownTravel(keys: seq<int>, k: nat)
    requires k < |keys| && Ascending(keys)
    ensures Travel(Sweep(keys, false, k)) ==
      (keys[k] - keys[0]) + (if k < |keys| - 1 then keys[|keys| - 1] - keys[0] else 0)
  {
    var n := |keys|;
    var upper, lower := keys[k + 1..], keys[..k + 1];
    assert keys[k + 1..n] == upper && keys[0..k + 1] == lower;
    AscendingSlice(keys, k + 1, n);
    AscendingSlice(keys, 0, k + 1);
    if k < n - 1 {
      Ends(keys, k + 1);
    }
    hide Ascending, Travel, Reversed;
    TravelReversed(lower);
    assert lower[k] == keys[k];
    if k < n - 1 {
      TravelAscending(upper);
      TravelSplit(Reversed(lower), upper);
      assert upper[|upper| - 1] == keys[n - 1];
    } else {
      assert Reversed(lower) + upper == Reversed(lower);
    }
  }

  /** Exactly how far the head moves, and at most twice the span of the queue. */
  lemma TotalTravel(e: Elevator, k: nat)
    requires k < |e.reqs| && Ascending(SectorKeys(e.reqs))
    ensures var keys, n := SectorKeys(e.reqs), |e.reqs|;
      && Travel(Order(e, k)) ==
           (if e.up then (keys[n - 1] - keys[k]) + (if k > 0 then keys[n - 1] - keys[0] else 0)
            else (keys[k] - keys[0]) + (if k < n - 1 then keys[n - 1] - keys[0] else 0))
      && Travel(Order(e, k)) <= 2 * (keys[n - 1] - keys[0])
  {
    hide Order, SectorKeys, Sweep, Travel, Ascending;
    var keys := SectorKeys(e.reqs);
    ServiceOrder(e, k);
    UpTravel(keys, k);
    DownTravel(keys, k);
    Ends(keys, k);
  }

  /** How often the direction changes until the queue is empty. */
  function Flips(e: Elevator, k: nat): nat
    requires k < |e.reqs|
    decreases |e.reqs|
  {
    (if Turn(|e.reqs|, e.up, k) != e.up then 1 else 0) +
    match NextReq(|e.reqs|, e.up, k)
    case None => 0
    case Some(j) => Flips(Finish(e, k), Shifted(k, j))
  }

  /** The direction is turned once where there is something left behind the head, and once more by the
      last request, which finds itself at the end it moves towards. */
  lemma {:induction false} DirectionFlips(e: Elevator, k: nat)
    requires k < |e.reqs|
    ensures Flips(e, k) == (if (if e.up then k > 0 else k < |e.reqs| - 1) then 2 else 1)
    decreases |e.reqs|
  {
    NextReqIsNullOnlyAlone(|e.reqs|, e.up, k);
    if |e.reqs| > 1 {
      DirectionFlips(Finish(e, k), Shifted(k, NextReq(|e.reqs|, e.up, k).value));
    }
  }

  // ---------------------------------------------------------------- the device object

  /** Linking a new request in by the insertion sort is the arrival step. */
  lemma ArriveElements(request: map<Node, Request>, nodes: seq<Node>, up: bool, req: Node, sector: nat, task: nat)
    requires Covers(request, nodes) && req !in nodes
    ensures var keys := SectorKeys(Elements(request, nodes));
      var i := InsertIndex(keys, AsInt32(sector));
      var after := request[req := Request(sector, if nodes == [] then None else Some(task), nodes == [])];
      && Covers(after, InsertAt(nodes, i, req))
      && req in InsertAt(nodes, i, req)
      && Elevator(Elements(after, InsertAt(nodes, i, req)), up) == Arrive(Elevator(Elements(request, nodes), up), sector, task)
      && SectorKeys(Elements(after, InsertAt(nodes, i, req))) == InsertAt(keys, i, AsInt32(sector))
  {
    var reqs := Elements(request, nodes);
    var i := InsertIndex(SectorKeys(reqs), AsInt32(sector));
    assert InsertAt(nodes, i, req)[i] == req;
    hide InsertIndex, AsInt32, InsertAt;
    var x := Request(sector, if nodes == [] then None else Some(task), nodes == []);
    ElementsInsert(request, nodes, i, req, x);
    SectorKeysOfInsert(reqs, i, x);
    hide Elements, SectorKeys;
  }

  /** The request that was chosen is in the queue behind, served and with its task. */
  lemma ChosenRuns(e: Elevator, k: nat)
    requires k < |e.reqs|
    ensures NextReq(|e.reqs|, e.up, k).None? <==> |e.reqs| == 1
    ensures NextReq(|e.reqs|, e.up, k).Some? ==> var j := NextReq(|e.reqs|, e.up, k).value;
      && j < |e.reqs| && j != k && Woken(e.reqs[j]) in Finish(e, k).reqs
      && Woken(e.reqs[j]).running && Woken(e.reqs[j]).task == e.reqs[j].task
  {
    NextReqIsNullOnlyAlone(|e.reqs|, e.up, k);
    if NextReq(|e.reqs|, e.up, k).Some? {
      var j := NextReq(|e.reqs|, e.up, k).value;
      hide NextReq, Turn;
      assert Finish(e, k).reqs[Shifted(k, j)] == Woken(e.reqs[j]);
    }
  }

  /** Unlinking and freeing one request and waking another on the nodes is the completion step. */
  lemma FinishElements(request: map<Node, Request>, nodes: seq<Node>, up: bool, k: nat, after: map<Node, Request>)
    requires Covers(request, nodes) && Distinct(nodes) && k < |nodes|
    requires var rest := request - {nodes[k]};
      match NextReq(|nodes|, up, k)
      case None => after == rest
      case Some(j) => j < |nodes| && j != k && after == rest[nodes[j] := Woken(request[nodes[j]])]
    ensures Covers(after, RemoveAt(nodes, k))
    ensures Elements(after, RemoveAt(nodes, k)) == Finish(Elevator(Elements(request, nodes), up), k).reqs
  {
    var next := NextReq(|nodes|, up, k);
    hide NextReq, Turn, Elements, RemoveAt, Woken;
    if next.Some? {
      var j := next.value;
      var woken := request[nodes[j] := Woken(request[nodes[j]])];
      assert nodes[j] != nodes[k];
      assert after == woken - {nodes[k]};
      ElementsUpdate(request, nodes, j, Woken(request[nodes[j]]));
      ElementsRemove(woken, nodes, k);
    } else {
      ElementsRemove(request, nodes, k);
    }
  }

  /** What that leaves: the invariant, and a served request with the task that is woken if any is left. */
  lemma FinishedElements(request: map<Node, Request>, nodes: seq<Node>, up: bool, k: nat, after: map<Node, Request>)
    requires Covers(request, nodes) && Distinct(nodes) && k < |nodes|
    requires Inv(Elevator(Elements(request, nodes), up)) && OnlyRunning(Elements(request, nodes), k)
    requires var rest := request - {nodes[k]};
      match NextReq(|nodes|, up, k)
      case None => after == rest
      case Some(j) => j < |nodes| && j != k && after == rest[nodes[j] := Woken(request[nodes[j]])]
    ensures var rest := RemoveAt(nodes, k);
      && Covers(after, rest)
      && Elevator(Elements(after, rest), Turn(|nodes|, up, k)) == Finish(Elevator(Elements(request, nodes), up), k)
      && Inv(Elevator(Elements(after, rest), Turn(|nodes|, up, k)))
      && SectorKeys(Elements(after, rest)) == RemoveAt(SectorKeys(Elements(request, nodes)), k)
      && match NextReq(|nodes|, up, k)
         case None => Elements(after, rest) == []
         case Some(j) =>
           && request[nodes[j]].task.Some? && Elements(after, rest) != []
           && exists r :: r in Elements(after, rest) && r.running && r.task == request[nodes[j]].task
  {
    hide Turn, NextReq, Finish, Inv, SectorKeys, RemoveAt, Woken;
    var e := Elevator(Elements(request, nodes), up);
    assert k < |e.reqs| == |nodes|;
    FinishKeeps(e, k);
    hide OnlyRunning;
    FinishKeys(e, k);
    ChosenRuns(e, k);
    FinishElements(request, nodes, up, k, after);
  }

  class BlockDevice {
    const list: List
    /** The request that a node is part of. */
    var request: map<Node, Request>
    var up: bool

    ghost predicate Valid()
      reads this, list, list.chain
    {
      && list.Valid() && Covers(request, list.Nodes())
      && list.Keys() == SectorKeys(Elements(request, list.Nodes()))
    }

    ghost function View(): Elevator
      reads this, list, list.chain
      requires Valid()
    {
      Elevator(Elements(request, list.Nodes()), up)
    }

    constructor ()
      ensures Valid() && View() == Elevator([], true)
    {
      list := new List();
      request, up := map[], true;
    }

    /** The first half of device_request; `go` says whether the task goes on without blocking. */
    method Submit(sector: nat, task: nat) returns (req: Node, go: bool)
      requires Valid()
      modifies this`request, list`chain, list.chain
      ensures Valid() && View() == Arrive(old(View()), sector, task)
      ensures go <==> old(View()).reqs == []
      ensures fresh(req) && req in list.Nodes()
    {
      hide InsertIndex, AsInt32, List.Valid, Elements, SectorKeys, Arrive, InsertAt;
      req := new Node(AsInt32(sector));
      go := list.Empty();
      ArriveElements(request, list.Nodes(), up, req, sector, task);
      hide Covers;
      list.InsertSort(req);
      request := request[req := Request(sector, if go then None else Some(task), go)];
    }

    /** request_nextreq for the request at position k; null when there is none. */
    method NextRequest(req: Node, ghost k: nat) returns (next: Node?)
      requires Valid() && k < |list.Nodes()| && req == list.Nodes()[k]
      modifies this`up
      ensures up == Turn(|list.Nodes()|, old(up), k)
      ensures match NextReq(|list.Nodes()|, old(up), k)
        case None => next == null
        case Some(j) => j < |list.Nodes()| && next == list.Nodes()[j]
    {
      list.Neighbours(req, k);
      if up && req.next == list.tail {
        up := false;
      } else if !up && req.prev == list.head {
        up := true;
      }
      next := if up then req.next else req.prev;
      if next == list.head || next == list.tail {
        next := null;
      }
    }

    /** The end of device_request: unlink and free the request, wake the task of the next one. */
    method HandOn(req: Node, ghost k: nat, next: Node?) returns (woken: Option<nat>)
      requires list.Valid() && k < |list.Nodes()| && req == list.Nodes()[k]
      requires next != null ==> next != req && next in request
      modifies this`request, list`chain, list.chain
      ensures list.Valid() && list.Nodes() == RemoveAt(old(list.Nodes()), k) && list.Keys() == RemoveAt(old(list.Keys()), k)
      ensures woken == if next == null then None else old(request)[next].task
      ensures request == if next == null then old(request) - {req}
        else (old(request) - {req})[next := Woken(old(request)[next])]
    {
      assert k + 1 < |list.chain| - 1 && req == list.chain[k + 1];
      hide List.Valid, RemoveAt, Woken;
      list.Remove(req, k + 1);
      list.Unlinked(k + 1);
      request := request - {req};
      woken := None;
      if next != null {
        woken := request[next].task;
        request := request[next := Woken(request[next])];
      }
    }

    /** The second half of device_request, run by the task whose transfer ended; the result is the task
        it wakes. */
    method Complete(req: Node, ghost k: nat) returns (woken: Option<nat>)
      requires Valid() && Inv(View()) && OnlyRunning(View().reqs, k) && req == list.Nodes()[k]
      modifies this, list`chain, list.chain
      ensures Valid() && View() == Finish(old(View()), k) && Inv(View())
      ensures woken.None? <==> View().reqs == []
      ensures woken.Some? ==> exists r :: r in View().reqs && r.running && r.task == woken
    {
      hide Turn, Finish, Inv, SectorKeys, RemoveAt, Woken, AsInt32, Ascending, List.Keys;
      ghost var was, nodes, e := request, list.Nodes(), View();
      assert k < |nodes|;
      NextReqIsNullOnlyAlone(|nodes|, up, k);
      list.Neighbours(req, k);
      hide NextReq, List.Valid, Elements, OnlyRunning;
      var next := NextRequest(req, k);
      assert next != null ==> next in request && next != req;
      woken := HandOn(req, k, next);
      hide Covers, Distinct;
      FinishedElements(was, nodes, e.up, k, request);
    }
  }
}
