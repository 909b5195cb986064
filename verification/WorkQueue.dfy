/** The work queue and its round-robin dispatcher: the workers table, its set-up and the choice
    of the worker that gets the next piece of work. */
module WorkQueue {
  import opened Machine

  /** One slot of the workers table, without its thread, mutex and condition variable. */
  datatype Worker<T> = Worker(idx: byte, active: bool, busy: bool, queue: seq<T>)

  /** An 8-bit countdown ends a search, and 8-bit fields hold indexes and sizes. */
  const SANITY: nat := 0xFF

  function Flags<T>(ws: seq<Worker<T>>): (flags: seq<bool>)
    ensures |flags| == |ws| && forall i :: 0 <= i < |ws| ==> flags[i] == ws[i].active
  {
    seq(|ws|, i requires 0 <= i < |ws| => ws[i].active)
  }

  function ActiveCount(flags: seq<bool>): nat {
    if flags == [] then 0 else (if flags[0] then 1 else 0) + ActiveCount(flags[1..])
  }

  lemma {:induction false} ActiveExists(flags: seq<bool>) returns (i: nat)
    requires ActiveCount(flags) > 0
    ensures i < |flags| && flags[i]
  {
    if flags[0] {
      i := 0;
    } else {
      i := ActiveExists(flags[1..]);
      i := i + 1;
    }
  }

  lemma {:induction false} SomeActive(flags: seq<bool>, i: nat)
    requires i < |flags| && flags[i]
    ensures ActiveCount(flags) > 0
  {
    if i > 0 {
      SomeActive(flags[1..], i - 1);
    }
  }

  lemma {:induction false} Deactivated(flags: seq<bool>, i: nat)
    requires i < |flags| && flags[i]
    ensures ActiveCount(flags[i := false]) == ActiveCount(flags) - 1
  {
    if i > 0 {
      Deactivated(flags[1..], i - 1);
      assert flags[i := false][1..] == flags[1..][i - 1 := false];
    } else {
      assert flags[0 := false][1..] == flags[1..];
    }
  }

  /** How many slots after start slot j comes, going round a table of n. */
  function Ahead(start: nat, j: nat, n: nat): int { if j >= start then j - start else j - start + n }

  function Following(i: nat, n: nat): nat { if i + 1 < n then i + 1 else 0 }

  /** c is the first active worker found going round the table from start. */
  ghost predicate Selects(flags: seq<bool>, start: nat, c: nat) {
    && start < |flags| && c < |flags| && flags[c]
    && forall j | 0 <= j < |flags| && Ahead(start, j, |flags|) < Ahead(start, c, |flags|) :: !flags[j]
  }

  /** The dispatcher's choice c and the index it starts from next time. */
  ghost predicate Picks(flags: seq<bool>, activeN: nat, first: nat, start: nat, c: nat, next: nat) {
    if activeN > 1 then Selects(flags, start, c) && next == Following(c, |flags|)
    else c == first < |flags| && next == start
  }

  lemma FollowingIsModular(i: nat, n: nat)
    requires i < n
    ensures (i + 1) % n == Following(i, n)
  {
    if i + 1 == n {
      QuotientUnique(i + 1, 1, 0, n);
    } else {
      QuotientUnique(i + 1, 0, i + 1, n);
    }
  }

  /** Truncation to uint8_t. */
  function Low8(i: nat): byte { i % 256 }

  /** A slot as set up: numbered, active when its thread could be created, idle. */
  ghost predicate SetUp<T>(w: Worker<T>, i: nat, launched: bool) {
    w.idx == Low8(i) && w.active == launched && !w.busy && w.queue == []
  }

  lemma Low8Small(n: nat)
    requires n < 256
    ensures Low8(n) == n
  {
  }

  lemma WholeTable<T>(ws: seq<Worker<T>>, launched: seq<bool>)
    requires |ws| == |launched| < 256 && forall i :: 0 <= i < |ws| ==> SetUp(ws[i], i, launched[i])
    ensures Flags(ws) == launched && forall i :: 0 <= i < |ws| ==> ws[i].idx == i
  {
  }

  /** Among slots left and up, first is the highest one set, truncated; 0 when none is. */
  ghost predicate HighestSet(flags: seq<bool>, left: nat, found: bool, first: byte) {
    if !found then first == 0 && forall i :: left <= i < |flags| ==> !flags[i]
    else exists k :: left <= k < |flags| && flags[k] && first == Low8(k) && forall i :: k < i < |flags| ==> !flags[i]
  }

  lemma HighestSetDown(flags: seq<bool>, left: nat, found: bool, first: byte)
    requires left < |flags| && HighestSet(flags, left + 1, found, first)
    ensures HighestSet(flags, left, found || flags[left], if flags[left] && !found then Low8(left) else first)
  {
    if found {
      var k :| left + 1 <= k < |flags| && flags[k] && first == Low8(k) && forall i :: k < i < |flags| ==> !flags[i];
      assert left <= k;
    }
  }

  lemma CountDown(flags: seq<bool>, left: nat)
    requires left < |flags|
    ensures ActiveCount(flags[left..]) == (if flags[left] then 1 else 0) + ActiveCount(flags[left + 1..])
  {
    assert flags[left..][1..] == flags[left + 1..];
  }

  lemma CountedExactly(flags: seq<bool>)
    ensures ActiveCount(flags) > 0 <==> exists i :: 0 <= i < |flags| && flags[i]
  {
    if ActiveCount(flags) > 0 {
      var i := ActiveExists(flags);
    }
    if i :| 0 <= i < |flags| && flags[i] {
      SomeActive(flags, i);
    }
  }

  /** After so many inactive workers going round from start, slot w is inactive too: there is
      another to look at, and the next slot comes next. */
  lemma MissedProbe(flags: seq<bool>, start: nat, w: nat, probes: nat, hit: nat)
    requires start < |flags| && w < |flags| && !flags[w] && hit < |flags| && flags[hit]
    requires Ahead(start, w, |flags|) == probes
    requires forall j | 0 <= j < |flags| && Ahead(start, j, |flags|) < probes :: !flags[j]
    ensures probes + 1 < |flags| && Ahead(start, Following(w, |flags|), |flags|) == probes + 1
    ensures forall j | 0 <= j < |flags| && Ahead(start, j, |flags|) < probes + 1 :: !flags[j]
  {
    assert Ahead(start, hit, |flags|) > probes;
  }

  /** No active worker stands between the start and the choice, going round the table. */
  lemma NoneBetween(flags: seq<bool>, start: nat, c: nat)
    requires Selects(flags, start, c)
    ensures forall j | 0 <= j < |flags| && flags[j] ::
              if c >= start then !(start <= j < c) else !(start <= j) && !(j < c)
  {
    forall j | 0 <= j < |flags| && flags[j]
      ensures if c >= start then !(start <= j < c) else !(start <= j) && !(j < c)
    {
      assert Ahead(start, j, |flags|) >= Ahead(start, c, |flags|);
    }
  }

  class Workqueue<T> {
    var workers: array<Worker<T>>
    var workersN: byte
    var activeN: u32
    var first: byte
    var next: byte
    var running: bool

    constructor ()
      ensures fresh(workers)
    {
      workers := new Worker<T>[0];
      workersN, activeN, first, next, running := 0, 0, 0, 0, false;
    }

    ghost predicate Valid()
      reads this, workers
    {
      && 0 < workersN == workers.Length
      && first < workersN && next < workersN
      && activeN == ActiveCount(Flags(workers[..]))
      && forall i :: 0 <= i < workersN ==> workers[i].idx == i
    }

    method InitWorker(i: nat, launched: bool)
      requires i < workers.Length
      modifies workers
      ensures SetUp(workers[i], i, launched)
      ensures forall k :: 0 <= k < workers.Length && k != i ==> workers[k] == old(workers[k])
    {
      workers[i] := Worker(Low8(i), launched, false, []);
    }

    /** Sets the queue up; launched says which of the worker threads could be created. Up to 255
        workers the table is valid, and dispatch starts at the highest active one. */
    method Init(n: u32, launched: seq<bool>) returns (ok: bool)
      requires |launched| == n
      modifies this
      ensures fresh(workers) && workers.Length == n && workersN == n % 0x100 && running
      ensures forall i :: 0 <= i < n ==> SetUp(workers[i], i, launched[i])
      ensures activeN == ActiveCount(launched)
      ensures ok <==> exists i :: 0 <= i < n && launched[i]
      ensures ok && n < 256 ==> Valid() && launched[first] && next == first
      ensures ok && n < 256 ==> forall i :: first < i < n ==> !launched[i]
    {
      workers := new Worker<T>[n];
      workersN, activeN, first, next := Low8(n), 0, 0, 0;
      var firstSet := false;
      var left: nat := n;
      while left > 0
        invariant left <= n && fresh(workers) && workers.Length == n && workersN == Low8(n)
        invariant forall i :: left <= i < n ==> SetUp(workers[i], i, launched[i])
        invariant activeN == ActiveCount(launched[left..]) <= n - left
        invariant HighestSet(launched, left, firstSet, first)
      {
        left := left - 1;
        CountDown(launched, left);
        HighestSetDown(launched, left, firstSet, first);
        InitWorker(left, launched[left]);
        if launched[left] {
          activeN := activeN + 1;
          if !firstSet {
            first := Low8(left);
            firstSet := true;
          }
        }
      }
      assert launched[0..] == launched;
      running := true;
      next := if firstSet then first else 0;
      CountedExactly(launched);
      ok := activeN > 0;
      if n < 256 {
        Low8Small(n);
        WholeTable(workers[..], launched);
      }
    }

    method Search() returns (w: byte, idx: byte)
      requires Valid() && activeN > 1
      ensures Selects(Flags(workers[..]), next, w) && idx == Following(w, workersN)
    {
      idx := next;
      w := idx;
      ghost var flags := Flags(workers[..]);
      ghost var hit := ActiveExists(flags);
      ghost var probes: nat := 0;
      var sanity := SANITY;
      var again := true;
      while again
        invariant idx < workersN && w < workersN
        invariant again ==> Ahead(next, idx, workersN) == probes
        invariant again ==> forall j | 0 <= j < workersN && Ahead(next, j, workersN) < probes :: !flags[j]
        invariant again ==> sanity == SANITY - probes
        invariant !again ==> Selects(flags, next, w) && idx == Following(w, workersN)
        decreases again, sanity
      {
        w := idx;
        FollowingIsModular(idx, workersN);
        idx := (idx + 1) % workersN;
        again := false;
        if !workers[w].active {
          MissedProbe(flags, next, w, probes, hit);
          probes := probes + 1;
          sanity := sanity - 1;
          again := sanity != 0;
        }
      }
    }

    /** Enqueues work at the worker the dispatcher picks. The search meets an active worker before
        its countdown ends; the chosen worker is active exactly when more than one is, or when
        the only one is the worker found first at set-up. */
    method QueueWork(work: T) returns (worker: Option<byte>)
      requires Valid()
      modifies this, workers
      ensures Valid() && workers == old(workers) && workersN == old(workersN)
      ensures activeN == old(activeN) && first == old(first) && running == old(running)
      ensures old(activeN) == 0 ==> worker == None && next == old(next) && workers[..] == old(workers[..])
      ensures old(activeN) > 0 ==>
        && worker.Some? && worker.value < workersN
        && Picks(Flags(old(workers[..])), old(activeN), first, old(next), worker.value, next)
        && var w := old(workers[..])[worker.value];
           workers[..] == old(workers[..])[worker.value := w.(busy := true, queue := w.queue + [work])]
      ensures activeN > 1 ==>
        && next == (worker.value + 1) % workersN
        && forall j | 0 <= j < workersN && old(workers[..])[j].active ::
             if worker.value >= old(next) then !(old(next) <= j < worker.value)
             else !(old(next) <= j) && !(j < worker.value)
      ensures activeN == 1 ==> worker == Some(first) && next == old(next)
      ensures worker.Some? ==> (workers[worker.value].active <==> activeN > 1 || old(workers[first].active))
    {
      if activeN == 0 {
        return None;
      }
      var idx: byte := next;
      var w: byte := first;
      if activeN > 1 {
        w, idx := Search();
      }
      worker := Some(workers[w].idx);
      next := idx;
      ghost var flags := Flags(workers[..]);
      workers[w] := workers[w].(queue := workers[w].queue + [work], busy := true);
      assert Flags(workers[..]) == flags;
      if activeN > 1 {
        FollowingIsModular(w, workersN);
        NoneBetween(flags, old(next), w);
      }
    }
  }
}
