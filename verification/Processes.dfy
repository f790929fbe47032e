/** Process identifiers: the PID bitmap of the process manager. */
module Processes {
  import opened Words
  import opened Bits

  const MAX_PROCESSES: nat := 1024
  const WORDS: nat := 16

  type Pid = u64
  datatype Process = Process(pid: Pid, cr3: u64, threads: seq<u64>)

  predicate Used(bitmap: seq<u64>, pid: nat)
    requires pid / 64 < |bitmap|
  {
    Bit(bitmap[pid / 64], pid % 64)
  }

  /** The least unused PID at or above `lo`. */
  function LeastUnused(bitmap: seq<u64>, lo: nat): Option<nat>
    requires |bitmap| == WORDS && lo <= MAX_PROCESSES
    decreases MAX_PROCESSES - lo
  {
    if lo == MAX_PROCESSES then None
    else if !Used(bitmap, lo) then Some(lo)
    else LeastUnused(bitmap, lo + 1)
  }

  lemma {:induction false} LeastUnusedIs(bitmap: seq<u64>, lo: nat)
    requires |bitmap| == WORDS && lo <= MAX_PROCESSES
    ensures match LeastUnused(bitmap, lo)
            case Some(r) => lo <= r < 1024 && !Used(bitmap, r) && forall p | lo <= p < r :: Used(bitmap, p)
            case None => forall p | lo <= p < 1024 :: Used(bitmap, p)
    decreases MAX_PROCESSES - lo
  {
    hide Used;
    if lo < MAX_PROCESSES && Used(bitmap, lo) { LeastUnusedIs(bitmap, lo + 1); }
  }

  lemma {:induction false} SkipUsed(bitmap: seq<u64>, lo: nat, hi: nat)
    requires |bitmap| == WORDS && lo <= hi <= MAX_PROCESSES
    requires forall p | lo <= p < hi :: Used(bitmap, p)
    ensures LeastUnused(bitmap, lo) == LeastUnused(bitmap, hi)
    decreases hi - lo
  {
    if lo < hi { SkipUsed(bitmap, lo + 1, hi); }
  }

  lemma WordWidth()
    ensures Pow2(64) == U64_SPAN
  {
    hide Pow2;
    SmallPowers();
    JoinPowers(4, 0x10, 4, 0x10);
    JoinPowers(8, 0x100, 8, 0x100);
    JoinPowers(16, 0x1_0000, 16, 0x1_0000);
    JoinPowers(32, 0x1_0000_0000, 32, 0x1_0000_0000);
  }

  lemma MarkFits(word: u64, j: nat)
    requires j < 64
    ensures SetBit(word, j) < U64_SPAN
  {
    WordWidth();
    WritesStayInWidth(word, j, 64);
  }

  lemma MarkUsed(bitmap: seq<u64>, after: seq<u64>, i: nat, j: nat)
    requires |bitmap| == WORDS && i < WORDS && j < 64
    requires SetBit(bitmap[i], j) < U64_SPAN && after == bitmap[i := SetBit(bitmap[i], j)]
    ensures forall p: nat | p < MAX_PROCESSES :: Used(after, p) <==> p == 64 * i + j || Used(bitmap, p)
  {
    forall p: nat | p < MAX_PROCESSES ensures Used(after, p) <==> p == 64 * i + j || Used(bitmap, p) {
      SetBitReads(bitmap[i], j, p % 64);
      assert p == 64 * (p / 64) + p % 64;
    }
  }

  class Manager {
    var processes: seq<Process>
    const processBitmap: array<u64>

    ghost predicate Valid() {
      processBitmap.Length == WORDS
    }

    /** PID 0 is reserved for the kernel. */
    constructor ()
      ensures Valid() && fresh(processBitmap) && processes == []
      ensures forall p: nat | p < MAX_PROCESSES :: Used(processBitmap[..], p) <==> p == 0
    {
      processes := [];
      processBitmap := new u64[WORDS](_ => 0);
      new;
      ghost var before := processBitmap[..];
      forall p: nat | p < MAX_PROCESSES ensures !Used(before, p) { ZeroHasNoBits(p % 64); }
      MarkFits(0, 0);
      processBitmap[0] := SetBit(processBitmap[0], 0);
      MarkUsed(before, processBitmap[..], 0, 0);
    }

    /** Issues the least unused PID and records its process; None is the panic, reached exactly
        when every PID is in use. */
    method CreateProcess() returns (pid: Option<Pid>)
      requires Valid()
      modifies this, processBitmap
      ensures Valid()
      ensures Created(old(processBitmap[..]), old(processes), processBitmap[..], processes, pid)
    {
      hide LeastUnused, Used;
      ghost var before := processBitmap[..];
      WordWidth();
      for i := 0 to WORDS
        invariant processBitmap[..] == before && processes == old(processes)
        invariant LeastUnused(before, 0) == LeastUnused(before, 64 * i)
      {
        AllOnesIffFull(processBitmap[i], 64);
        if processBitmap[i] != U64_SPAN - 1 {
          var j := ClearBitOf(i);
          var pid := i * 64 + j;
          SkipWord(before, i, j);
          MarkFits(before[i], j);
          processBitmap[i] := SetBit(processBitmap[i], j);
          MarkUsed(before, processBitmap[..], i, j);
          processes := processes + [Process(pid, 0, [])];
          return Some(pid);
        }
        SkipWord(before, i, 64);
      }
      NoneLeft(before);
      return None;
    }

    /** The inner loop: the lowest clear bit of a word that has one. */
    method ClearBitOf(i: nat) returns (j: nat)
      requires Valid() && i < WORDS && !AllSet(processBitmap[i], 64)
      ensures j < 64 && !Bit(processBitmap[i], j) && forall x: nat | x < j :: Bit(processBitmap[i], x)
    {
      for b := 0 to 64
        invariant forall x: nat | x < b :: Bit(processBitmap[i], x)
      {
        if !Bit(processBitmap[i], b) {
          return b;
        }
      }
      assert false;
    }

    method GetProcess(pid: Pid) returns (r: Option<Process>)
      ensures match r
              case Some(p) => p in processes && p.pid == pid
              case None => forall p | p in processes :: p.pid != pid
    {
      for i := 0 to |processes|
        invariant forall x | 0 <= x < i :: processes[x].pid != pid
      {
        if processes[i].pid == pid {
          return Some(processes[i]);
        }
      }
      return None;
    }
  }

  lemma SkipWord(bitmap: seq<u64>, i: nat, j: nat)
    requires |bitmap| == WORDS && i < WORDS && j <= 64
    requires forall x: nat | x < j :: Bit(bitmap[i], x)
    ensures LeastUnused(bitmap, 64 * i) == LeastUnused(bitmap, 64 * i + j)
    ensures j < 64 && !Bit(bitmap[i], j) ==> LeastUnused(bitmap, 64 * i + j) == Some(64 * i + j)
  {
    forall p | 64 * i <= p < 64 * i + j ensures Used(bitmap, p) {
      assert p / 64 == i && p % 64 == p - 64 * i;
    }
    SkipUsed(bitmap, 64 * i, 64 * i + j);
    if j < 64 {
      assert (64 * i + j) / 64 == i && (64 * i + j) % 64 == j;
    }
  }

  lemma NoneLeft(bitmap: seq<u64>)
    requires |bitmap| == WORDS
    ensures LeastUnused(bitmap, MAX_PROCESSES) == None
  {
  }

  /** What one creation does: the least unused PID becomes used and names the appended process. */
  ghost predicate Created(before: seq<u64>, processes: seq<Process>, after: seq<u64>, processes': seq<Process>,
                          pid: Option<Pid>)
    requires |before| == |after| == WORDS
  {
    && pid == LeastUnused(before, 0)
    && match pid
       case Some(pid) =>
         && processes' == processes + [Process(pid, 0, [])]
         && forall p: nat | p < MAX_PROCESSES :: Used(after, p) <==> p == pid || Used(before, p)
       case None => processes' == processes && after == before
  }

  // ---------------------------------------------------------------- runs of creations

  datatype State = State(bitmap: seq<u64>, processes: seq<Process>)

  /** The manager after `n` creations from a fresh start: PIDs 0 to n used, process i has PID i + 1. */
  ghost predicate AfterCreations(s: State, n: nat) {
    && |s.bitmap| == WORDS
    && |s.processes| == n < MAX_PROCESSES
    && (forall i: nat | i < n :: s.processes[i] == Process(i + 1, 0, []))
    && (forall p: nat | p < MAX_PROCESSES :: Used(s.bitmap, p) <==> p <= n)
  }

  /** One call after `n` creations: PID n + 1, or the panic if n is 1023. */
  lemma CreationStep(s: State, t: State, n: nat, pid: Option<Pid>)
    requires AfterCreations(s, n) && |t.bitmap| == WORDS
    requires Created(s.bitmap, s.processes, t.bitmap, t.processes, pid)
    ensures pid == if n < MAX_PROCESSES - 1 then Some(n + 1) else None
    ensures AfterCreations(t, Min(n + 1, MAX_PROCESSES - 1))
  {
    SkipUsed(s.bitmap, 0, n + 1);
  }

  /** A run: each state follows from the one before by a call that returned the given PID. */
  ghost predicate CreationRun(states: seq<State>, pids: seq<Option<Pid>>) {
    && |states| == |pids| + 1
    && (forall c | 0 <= c < |states| :: |states[c].bitmap| == WORDS)
    && forall c | 0 <= c < |pids| ::
         Created(states[c].bitmap, states[c].processes, states[c + 1].bitmap, states[c + 1].processes, pids[c])
  }

  /** Over any run from a fresh manager, call c (counting from 0) returns PID c + 1, and the panic
      is reached on the 1024th call and not before. */
  lemma {:induction false} PidsAreSequential(states: seq<State>, pids: seq<Option<Pid>>, c: nat)
    requires CreationRun(states, pids) && AfterCreations(states[0], 0) && c <= |pids|
    ensures AfterCreations(states[c], Min(c, 1023))
    ensures c < |pids| ==> pids[c] == if c < 1023 then Some(c + 1) else None
    decreases c
  {
    if c > 0 { PidsAreSequential(states, pids, c - 1); }
    if c > 0 { CreationStep(states[c - 1], states[c], Min(c - 1, MAX_PROCESSES - 1), pids[c - 1]); }
    if c < |pids| { CreationStep(states[c], states[c + 1], Min(c, MAX_PROCESSES - 1), pids[c]); }
  }

  /** After `n` creations a PID names a process exactly when it is one of 1 to n; PID 0 never does. */
  lemma KnownPids(s: State, n: nat, pid: Pid)
    requires AfterCreations(s, n)
    ensures (exists p | p in s.processes :: p.pid == pid) <==> 1 <= pid <= n
    ensures 1 <= pid <= n ==> s.processes[pid - 1].pid == pid
  {
    if 1 <= pid <= n {
      assert s.processes[pid - 1] in s.processes;
    }
  }
}
