/** The slot table of lib/ss_cache.c: finding the slot of a file and choosing a victim. */
module SlotTable {
  import opened Bytes
  import opened DirTable

  /** One buffered file. `buf` is the whole allocation, of which the first `len` bytes are the file. */
  datatype Slot =
    | Free
    | Loaded(buf: bytes, dirIdx: nat, pos: u16, len: u16, size: u16, dirty: bool)

  const MAX_ENTRIES := 10

  method SlotFind(slots: array<Slot>, dirIdx: nat) returns (idx: int)
    ensures -1 <= idx < slots.Length
    ensures idx >= 0 ==> slots[idx].Loaded? && slots[idx].dirIdx == dirIdx
    ensures forall j :: 0 <= j < (if idx < 0 then slots.Length else idx) && slots[j].Loaded? ==>
              slots[j].dirIdx != dirIdx
  {
    for i := 0 to slots.Length
      invariant forall j :: 0 <= j < i && slots[j].Loaded? ==> slots[j].dirIdx != dirIdx
    {
      if slots[i].Loaded? && slots[i].dirIdx == dirIdx {
        return i;
      }
    }
    return -1;
  }

  // --- Victim choice ---------------------------------------------------------------------------

  ghost predicate Indexed(dir: seq<Entry>, slots: seq<Slot>) {
    forall i :: 0 <= i < |slots| && slots[i].Loaded? ==> slots[i].dirIdx < |dir|
  }

  ghost function Hits(dir: seq<Entry>, s: Slot): byte
    requires s.Loaded? && s.dirIdx < |dir|
  {
    dir[s.dirIdx].hits
  }

  /** The cost of taking a slot: nothing, an allocation, or a flash write. */
  ghost function Tier(s: Slot, want: nat): nat
    requires s.Loaded?
  {
    if s.dirty then 2 else if s.size < want then 1 else 0
  }

  /** Slot i is preferred to slot j: cheaper, then fewer hits, then lower index. */
  ghost predicate Preferred(dir: seq<Entry>, slots: seq<Slot>, want: nat, i: nat, j: nat)
    requires i < |slots| && j < |slots| && slots[i].Loaded? && slots[j].Loaded?
    requires slots[i].dirIdx < |dir| && slots[j].dirIdx < |dir|
  {
    var (ti, tj) := (Tier(slots[i], want), Tier(slots[j], want));
    var (hi, hj) := (Hits(dir, slots[i]), Hits(dir, slots[j]));
    ti < tj || (ti == tj && (hi < hj || (hi == hj && i < j)))
  }

  ghost predicate Qualifies(level: nat, s: Slot, want: nat)
    requires s.Loaded?
  {
    (level <= 1 ==> !s.dirty) && (level == 0 ==> s.size >= want)
  }

  /** `best` is the first of the qualifying slots below n with the fewest hits, if there is one. */
  ghost predicate RunningMin(dir: seq<Entry>, slots: seq<Slot>, want: nat, level: nat, n: nat, best: int, min: int)
    requires n <= |slots| && Indexed(dir, slots)
    requires forall j :: 0 <= j < n ==> slots[j].Loaded?
  {
    if best < 0 then
      min == 0x100 && forall j :: 0 <= j < n ==> !Qualifies(level, slots[j], want)
    else
      && best < n && Qualifies(level, slots[best], want) && min == Hits(dir, slots[best])
      && (forall j :: 0 <= j < n && Qualifies(level, slots[j], want) ==>
            min < Hits(dir, slots[j]) || (min == Hits(dir, slots[j]) && best <= j))
  }

  /** The slot a file must be loaded into: the first free one, else the unique best victim; a flash
      write is paid only when nothing is clean. */
  ghost predicate IsChoice(dir: seq<Entry>, slots: seq<Slot>, want: nat, idx: nat)
    requires Indexed(dir, slots)
  {
    && idx < |slots|
    && if slots[idx].Free? then
         forall j :: 0 <= j < idx ==> slots[j].Loaded?
       else
         && (forall j :: 0 <= j < |slots| ==> slots[j].Loaded?)
         && (forall j :: 0 <= j < |slots| && j != idx ==> Preferred(dir, slots, want, idx, j))
         && (slots[idx].dirty ==> forall j :: 0 <= j < |slots| ==> slots[j].dirty)
  }

  /** Slot v has fewer hits than slot j, or as many and comes no later. */
  ghost predicate Colder(dir: seq<Entry>, slots: seq<Slot>, v: nat, j: nat)
    requires v < |slots| && j < |slots| && slots[v].Loaded? && slots[j].Loaded?
    requires slots[v].dirIdx < |dir| && slots[j].dirIdx < |dir|
  {
    var (mine, other) := (dir[slots[v].dirIdx].hits, dir[slots[j].dirIdx].hits);
    mine < other || (mine == other && v <= j)
  }

  /** The choice in the words of the header: the first free slot; when there is none, of the clean slots
      whose buffer holds `want` bytes the first with the fewest hits; if there is none of those, of the
      clean slots; if all are dirty, of all. */
  lemma ChoiceSpelledOut(dir: seq<Entry>, slots: seq<Slot>, want: nat, v: nat)
    requires Indexed(dir, slots) && IsChoice(dir, slots, want, v)
    ensures (exists j :: 0 <= j < |slots| && slots[j].Free?) ==>
              slots[v].Free? && forall j :: 0 <= j < v ==> slots[j].Loaded?
    ensures (forall j :: 0 <= j < |slots| ==> slots[j].Loaded?) ==>
              if exists j :: 0 <= j < |slots| && !slots[j].dirty && slots[j].size >= want then
                && !slots[v].dirty && slots[v].size >= want
                && forall j :: 0 <= j < |slots| && !slots[j].dirty && slots[j].size >= want ==> Colder(dir, slots, v, j)
              else if exists j :: 0 <= j < |slots| && !slots[j].dirty then
                && !slots[v].dirty
                && forall j :: 0 <= j < |slots| && !slots[j].dirty ==> Colder(dir, slots, v, j)
              else forall j :: 0 <= j < |slots| ==> Colder(dir, slots, v, j)
  {
    if forall j :: 0 <= j < |slots| ==> slots[j].Loaded? {
      forall j | 0 <= j < |slots|
        ensures Tier(slots[v], want) <= Tier(slots[j], want)
        ensures Tier(slots[v], want) == Tier(slots[j], want) ==> Colder(dir, slots, v, j)
      {
        assert j != v ==> Preferred(dir, slots, want, v, j);
      }
    }
  }

  method SlotAcquire(dir: seq<Entry>, slots: array<Slot>, want: nat) returns (idx: int)
    requires Indexed(dir, slots[..])
    ensures -1 <= idx < slots.Length && (idx == -1 <==> slots.Length == 0)
    ensures idx == -1 || (idx >= 0 && IsChoice(dir, slots[..], want, idx))
  {
    for i := 0 to slots.Length
      invariant forall j :: 0 <= j < i ==> slots[j].Loaded?
    {
      if slots[i].Free? {
        return i;
      }
    }
    var best0, best1, best2 := -1, -1, -1;
    var min0, min1, min2 := 0x100, 0x100, 0x100;
    for i := 0 to slots.Length
      invariant RunningMin(dir, slots[..], want, 0, i, best0, min0)
      invariant RunningMin(dir, slots[..], want, 1, i, best1, min1)
      invariant RunningMin(dir, slots[..], want, 2, i, best2, min2)
    {
      var s := slots[i];
      assert slots[..][i] == s;
      var hits := dir[s.dirIdx].hits;
      if !s.dirty && s.size >= want && hits < min0 {
        min0, best0 := hits, i;
      }
      if !s.dirty && hits < min1 {
        min1, best1 := hits, i;
      }
      if hits < min2 {
        min2, best2 := hits, i;
      }
    }
    VictimIsBest(dir, slots[..], want, best0, min0, best1, min1, best2, min2);
    if best0 >= 0 {
      return best0;
    }
    if best1 >= 0 {
      return best1;
    }
    return best2;
  }

  lemma NotBothPreferred(dir: seq<Entry>, slots: seq<Slot>, want: nat, i: nat, j: nat)
    requires i < |slots| && j < |slots| && slots[i].Loaded? && slots[j].Loaded?
    requires slots[i].dirIdx < |dir| && slots[j].dirIdx < |dir|
    ensures !(Preferred(dir, slots, want, i, j) && Preferred(dir, slots, want, j, i))
  {
  }

  /** The choice is unique. */
  lemma ChoiceIsUnique(dir: seq<Entry>, slots: seq<Slot>, want: nat, i: nat, j: nat)
    requires Indexed(dir, slots) && i < |slots| && j < |slots|
    ensures IsChoice(dir, slots, want, i) && IsChoice(dir, slots, want, j) ==> i == j
  {
    hide Preferred;
    if slots[i].Loaded? && slots[j].Loaded? {
      NotBothPreferred(dir, slots, want, i, j);
    }
  }

  /** Reading the three minima in order gives the lexicographic optimum. */
  lemma VictimIsBest(dir: seq<Entry>, slots: seq<Slot>, want: nat,
                     best0: int, min0: int, best1: int, min1: int, best2: int, min2: int)
    requires Indexed(dir, slots) && forall j :: 0 <= j < |slots| ==> slots[j].Loaded?
    requires RunningMin(dir, slots, want, 0, |slots|, best0, min0)
    requires RunningMin(dir, slots, want, 1, |slots|, best1, min1)
    requires RunningMin(dir, slots, want, 2, |slots|, best2, min2)
    ensures var v := if best0 >= 0 then best0 else if best1 >= 0 then best1 else best2;
            && (v < 0 <==> |slots| == 0) && v < |slots|
            && (forall j :: v >= 0 && 0 <= j < |slots| && j != v ==> Preferred(dir, slots, want, v, j))
            && (v >= 0 && slots[v].dirty ==> forall j :: 0 <= j < |slots| ==> slots[j].dirty)
  {
    forall j | 0 <= j < |slots|
      ensures Qualifies(2, slots[j], want)
      ensures Qualifies(1, slots[j], want) <==> !slots[j].dirty
      ensures Qualifies(0, slots[j], want) <==> Tier(slots[j], want) == 0
    {
    }
    if |slots| > 0 {
      assert Qualifies(2, slots[0], want);
    }
  }
}
