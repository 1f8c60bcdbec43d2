/** What survives a power loss: theorems about every legal run of the plain file system. */
module Durability {
  import opened Bytes
  import opened PlainFs

  /** The step replaces or erases the flash record of k. */
  ghost predicate Stores(p: Plain, e: Event, k: u16)
    requires Legal(p, e)
  {
    match e
    case Committed(key) => key == k
    case Removed(hash, erased) => erased && p.listing[hash].key == k
    case Provisioned(hash, data) => p.listing[hash].key == k
    case _ => false
  }

  ghost predicate StoresAt(base: Plain, h: seq<Event>, i: nat, k: u16)
    requires LegalRun(base, h) && i < |h|
  {
    StepAt(base, h, i);
    Stores(At(base, h, i), h[i], k)
  }

  /** Index of the last step of a run that stored k, or -1. */
  ghost function LastStore(base: Plain, h: seq<Event>, k: u16, n: nat): (i: int)
    requires LegalRun(base, h) && n <= |h|
    ensures -1 <= i < n
    ensures i >= 0 ==> StoresAt(base, h, i, k)
    ensures forall j :: i < j < n ==> !StoresAt(base, h, j, k)
  {
    if n == 0 then -1 else if StoresAt(base, h, n - 1, k) then n - 1 else LastStore(base, h, k, n - 1)
  }

  lemma UnstoredStep(p: Plain, e: Event, k: u16)
    requires Inv(p) && Legal(p, e) && !Stores(p, e, k)
    ensures SameRecord(p.durable, Apply(p, e).durable, k)
  {
  }

  lemma InvAt(base: Plain, h: seq<Event>, i: nat)
    requires Inv(base) && LegalRun(base, h) && i <= |h|
    ensures Inv(At(base, h, i)) && At(base, h, i).boot == base.boot
  {
    PrefixLegal(base, h, i);
    InvRun(base, h[..i]);
  }

  /** Between two stores the flash record of a file does not move. */
  lemma {:induction false} FlashFrozen(base: Plain, h: seq<Event>, i: nat, n: nat, k: u16)
    requires Inv(base) && LegalRun(base, h) && i <= n <= |h|
    requires forall j :: i <= j < n ==> !StoresAt(base, h, j, k)
    ensures SameRecord(At(base, h, i).durable, At(base, h, n).durable, k)
    decreases n - i
  {
    if i < n {
      FlashFrozen(base, h, i, n - 1, k);
      StepAt(base, h, n - 1);
      InvAt(base, h, n - 1);
      assert !StoresAt(base, h, n - 1, k);
      UnstoredStep(At(base, h, n - 1), h[n - 1], k);
    }
  }

  /** All RAM state dropped. */
  ghost function Crash(p: Plain): Plain {
    Apply(p, Crashed)
  }

  /** `flash` holds for k exactly what n steps of the run say it must: its contents at its last
      successful commit, its last provisioned record, nothing if it was last erased, or what flash
      held at the start. */
  ghost predicate Recovered(base: Plain, h: seq<Event>, n: nat, k: u16, flash: map<u16, bytes>)
    requires LegalRun(base, h) && n <= |h|
  {
    var i := LastStore(base, h, k, n);
    if i < 0 then SameRecord(base.durable, flash, k)
    else match h[i]
      case Committed(_) => k in At(base, h, i).view && k in flash && flash[k] == At(base, h, i).view[k]
      case Provisioned(_, data) => k in flash && flash[k] == data
      case _ => k !in flash
  }

  /** Crash consistency. Drop all RAM state after any n steps of any run: every file holds exactly
      its contents at its last successful commit. */
  lemma CrashConsistency(base: Plain, h: seq<Event>, n: nat, k: u16)
    requires Inv(base) && LegalRun(base, h) && n <= |h|
    ensures Recovered(base, h, n, k, At(base, h, n).durable)
    ensures Recovered(base, h, n, k, Crash(At(base, h, n)).view)
  {
    var i := LastStore(base, h, k, n);
    if i < 0 {
      FlashFrozen(base, h, 0, n, k);
    } else {
      FlashFrozen(base, h, i + 1, n, k);
      StepAt(base, h, i);
      assert StoresAt(base, h, i, k);
    }
  }

  /** The same for every state flash has ever been in, so also in the middle of a call that writes
      several records: after write j it is what the run up to the event of that write says. */
  lemma EveryFlashStateConsistent(base: Plain, h: seq<Event>, j: nat, k: u16) returns (n: nat)
    requires Inv(base) && LegalRun(base, h) && j < |FlashStates(base, h)|
    ensures 0 < n <= |h| && Writes(h[n - 1]) && WriteCount(h[..n]) == j + 1
    ensures Recovered(base, h, n, k, FlashStates(base, h)[j])
  {
    n := FlashStateAt(base, h, j);
    CrashConsistency(base, h, n, k);
  }

  /** The client changes the file of k, or does away with it. */
  ghost predicate Touches(p: Plain, e: Event, k: u16)
    requires Legal(p, e)
  {
    match e
    case Wrote(_) => OpenKey(p) == k
    case Put(_, _) => OpenKey(p) == k
    case Removed(hash, _) => p.listing[hash].key == k
    case Provisioned(hash, _) => p.listing[hash].key == k
    case _ => false
  }

  ghost predicate TouchesAt(base: Plain, h: seq<Event>, i: nat, k: u16)
    requires LegalRun(base, h) && i < |h|
  {
    StepAt(base, h, i);
    Touches(At(base, h, i), h[i], k)
  }

  /** RAM and flash both hold c for k. */
  ghost predicate Holds(p: Plain, k: u16, c: bytes) {
    k in p.view && k in p.durable && p.view[k] == c && p.durable[k] == c
  }

  lemma UntouchedStep(p: Plain, e: Event, k: u16, c: bytes)
    requires Inv(p) && Legal(p, e) && Holds(p, k, c) && !Touches(p, e, k)
    ensures Holds(Apply(p, e), k, c)
  {
  }

  lemma {:induction false} StaysHeld(base: Plain, h: seq<Event>, i: nat, n: nat, k: u16, c: bytes)
    requires Inv(base) && LegalRun(base, h) && i <= n <= |h| && Holds(At(base, h, i), k, c)
    requires forall j :: i <= j < n ==> !TouchesAt(base, h, j, k)
    ensures Holds(At(base, h, n), k, c)
    decreases n
  {
    if i < n {
      StaysHeld(base, h, i, n - 1, k, c);
      StepAt(base, h, n - 1);
      InvAt(base, h, n - 1);
      assert !TouchesAt(base, h, n - 1, k);
      UntouchedStep(At(base, h, n - 1), h[n - 1], k, c);
    }
  }

  /** A file flagged commit-on-close whose close reported success holds the contents of that close, in
      RAM and on flash, until the client changes or removes it: through every open, read, eviction,
      commit, remount and power loss in between. */
  lemma CleanCloseSurvives(base: Plain, h: seq<Event>, j: nat, n: nat)
    requires Inv(base) && LegalRun(base, h) && j < n <= |h|
    requires h[j] == Closed(0) && IsOpen(At(base, h, j))
    requires At(base, h, j).listing[At(base, h, j).open.value.hash].eager
    requires forall i :: j < i < n ==> !TouchesAt(base, h, i, OpenKey(At(base, h, j)))
    ensures var (p, q) := (At(base, h, j), At(base, h, n));
            Holds(q, OpenKey(p), p.view[OpenKey(p)]) && Holds(Crash(q), OpenKey(p), p.view[OpenKey(p)])
  {
    StepAt(base, h, j);
    var p := At(base, h, j);
    StaysHeld(base, h, j + 1, n, OpenKey(p), p.view[OpenKey(p)]);
  }

  /** Written again but not stored again, it still comes back from a power loss as it was closed. */
  lemma CleanCloseComesBack(base: Plain, h: seq<Event>, j: nat, n: nat)
    requires Inv(base) && LegalRun(base, h) && j < n <= |h|
    requires h[j] == Closed(0) && IsOpen(At(base, h, j))
    requires At(base, h, j).listing[At(base, h, j).open.value.hash].eager
    requires forall i :: j < i < n ==> !StoresAt(base, h, i, OpenKey(At(base, h, j)))
    ensures var (p, q) := (At(base, h, j), Crash(At(base, h, n)));
            OpenKey(p) in q.view && q.view[OpenKey(p)] == p.view[OpenKey(p)]
  {
    StepAt(base, h, j);
    FlashFrozen(base, h, j + 1, n, OpenKey(At(base, h, j)));
  }

  /** A path removed from flash is never opened again, through any number of mounts and power
      losses that list it again, unless it is provisioned anew. */
  lemma {:induction false} RemovedStaysGone(base: Plain, h: seq<Event>, i: nat, n: nat)
    requires Inv(base) && LegalRun(base, h) && i < n <= |h|
    requires h[i].Removed? && h[i].erased
    requires forall j :: i < j < n && h[j].Provisioned? ==> h[j].hash != h[i].hash
    ensures h[i].hash in base.boot && base.boot[h[i].hash].key !in At(base, h, n).view
    ensures n < |h| ==> h[n] != Opened(h[i].hash)
    decreases n
  {
    hide Legal, Apply, Run, Inv;
    var p := At(base, h, n - 1);
    StepAt(base, h, n - 1);
    InvAt(base, h, n - 1);
    if n - 1 > i {
      RemovedStaysGone(base, h, i, n - 1);
      StaysAbsent(p, h[n - 1], h[i].hash);
    } else {
      GoneAtOnce(p, h[i].hash);
    }
    if n < |h| {
      StepAt(base, h, n);
      InvAt(base, h, n);
      CannotOpen(At(base, h, n), h[n], h[i].hash);
    }
  }

  lemma GoneAtOnce(p: Plain, hash: u32)
    requires Inv(p) && Legal(p, Removed(hash, true))
    ensures hash in p.boot && p.boot[hash].key !in Apply(p, Removed(hash, true)).view
  {
  }

  lemma CannotOpen(p: Plain, e: Event, hash: u32)
    requires Inv(p) && Legal(p, e) && hash in p.boot && p.boot[hash].key !in p.view
    ensures e != Opened(hash)
  {
  }

  lemma StaysAbsent(p: Plain, e: Event, hash: u32)
    requires Inv(p) && Legal(p, e) && hash in p.boot
    requires p.boot[hash].key !in p.view
    requires e.Provisioned? ==> e.hash != hash
    ensures p.boot[hash].key !in Apply(p, e).view
  {
    if e.Provisioned? {
      assert p.listing[e.hash].key != p.boot[hash].key;
    }
  }

  /** Opening, reading, seeking, closing, committing and mounting change no contents; a write
      changes only the open file, and only as far as the plain map says. */
  lemma OnlyOpenFileChanges(p: Plain, e: Event, k: u16)
    requires Inv(p) && Legal(p, e)
    requires !e.Crashed? && !e.Removed? && !e.Provisioned?
    requires e.Wrote? || e.Put? ==> OpenKey(p) != k
    ensures SameRecord(p.view, Apply(p, e).view, k)
  {
  }
}
