/** The SVC patcher: it scans Thumb code in place, turns system calls into undefined instructions and
    keeps the list of addresses that the signal handler trusts. */
module Svc {
  import opened Bytes
  import Arith

  /** The two bytes of `svc 1`. */
  predicate SvcAt(code: seq<byte>, i: nat) {
    i + 1 < |code| && code[i] == 0x01 && code[i + 1] == 0xDF
  }

  /** `cmp r1, #0` or `bx lr`, which follow a system call from API level 23 on. */
  predicate ReturnAt(code: seq<byte>, i: nat) {
    i + 1 < |code| && ((code[i] == 0x00 && code[i + 1] == 0x29) || (code[i] == 0x70 && code[i + 1] == 0x47))
  }

  /** A system call to patch: an SVC at an even address, from level 23 on followed by a return. */
  predicate Hit(code: seq<byte>, base: nat, apiLevel: int, i: nat) {
    (base + i) % 2 == 0 && SvcAt(code, i) && (apiLevel < 23 || ReturnAt(code, i + 2))
  }

  /** Addresses of the hits at offsets lo .. hi, in ascending order. */
  function Hits(code: seq<byte>, base: nat, apiLevel: int, lo: nat, hi: int): (addresses: seq<int>)
    decreases hi - lo
  {
    if hi <= lo then []
    else Hits(code, base, apiLevel, lo, hi - 1) + if Hit(code, base, apiLevel, hi - 1) then [base + hi - 1] else []
  }

  /** A byte of the code after every hit at offsets lo .. hi has become an undefined instruction. */
  function PatchedAt(code: seq<byte>, base: nat, apiLevel: int, lo: nat, hi: int, i: nat): byte
    requires i < |code|
  {
    if lo <= i < hi && Hit(code, base, apiLevel, i) then 0xFF
    else if lo <= i - 1 < hi && Hit(code, base, apiLevel, i - 1) then 0xDE
    else code[i]
  }

  function Patched(code: seq<byte>, base: nat, apiLevel: int, lo: nat, hi: int): (patched: seq<byte>)
    ensures |patched| == |code|
  {
    seq(|code|, i requires 0 <= i < |code| => PatchedAt(code, base, apiLevel, lo, hi, i))
  }

  /** An address is listed exactly when it is that of a hit. */
  lemma {:induction false} HitsAreListed(code: seq<byte>, base: nat, apiLevel: int, lo: nat, hi: int, a: int)
    ensures a in Hits(code, base, apiLevel, lo, hi) <==> base + lo <= a < base + hi && Hit(code, base, apiLevel, a - base)
    decreases hi - lo
  {
    hide Hit;
    if hi > lo {
      HitsAreListed(code, base, apiLevel, lo, hi - 1, a);
    }
  }

  /** The addresses are listed in ascending order, so each only once. */
  lemma {:induction false} HitsAscend(code: seq<byte>, base: nat, apiLevel: int, lo: nat, hi: int)
    ensures forall j, k :: 0 <= j < k < |Hits(code, base, apiLevel, lo, hi)| ==>
      Hits(code, base, apiLevel, lo, hi)[j] < Hits(code, base, apiLevel, lo, hi)[k]
    decreases hi - lo
  {
    if hi > lo {
      HitsAscend(code, base, apiLevel, lo, hi - 1);
      var init := Hits(code, base, apiLevel, lo, hi - 1);
      forall j | 0 <= j < |init|
        ensures init[j] < base + hi - 1
      {
        HitsAreListed(code, base, apiLevel, lo, hi - 1, init[j]);
      }
    }
  }

  /** Patching leaves nothing to patch: what is still a hit afterwards was a hit before and lies
      outside the range. */
  lemma NoNewHits(code: seq<byte>, base: nat, apiLevel: int, lo: nat, hi: int, i: nat)
    requires Hit(Patched(code, base, apiLevel, lo, hi), base, apiLevel, i)
    ensures Hit(code, base, apiLevel, i) && !(lo <= i < hi)
  {
  }

  /** Offsets without a hit may be skipped. */
  lemma {:induction false} NoHits(code: seq<byte>, base: nat, apiLevel: int, lo: nat, from: nat, to: int)
    requires lo <= from && forall i: nat :: from <= i < to ==> !Hit(code, base, apiLevel, i)
    ensures Hits(code, base, apiLevel, lo, from) == Hits(code, base, apiLevel, lo, Arith.Max(from, to))
    ensures Patched(code, base, apiLevel, lo, from) == Patched(code, base, apiLevel, lo, Arith.Max(from, to))
    decreases Arith.Max(0, to - from)
  {
    if from < to {
      NoHits(code, base, apiLevel, lo, from, to - 1);
    }
  }

  /** A hit adds its address and two bytes. */
  lemma OneMoreHit(code: seq<byte>, base: nat, apiLevel: int, lo: nat, at: nat)
    requires lo <= at && Hit(code, base, apiLevel, at)
    ensures Hits(code, base, apiLevel, lo, at + 2) == Hits(code, base, apiLevel, lo, at) + [base + at]
    ensures Patched(code, base, apiLevel, lo, at + 2)
      == Patched(code, base, apiLevel, lo, at)[at := 0xFF][at + 1 := 0xDE]
    ensures !Hit(code, base, apiLevel, at + 1)
  {
    assert !Hit(code, base, apiLevel, at + 1);
    assert at >= 1 ==> !Hit(code, base, apiLevel, at - 1);
    assert Hits(code, base, apiLevel, lo, at + 2) == Hits(code, base, apiLevel, lo, at + 1);
    assert at + 1 < |code|;
    hide Hits, SvcAt, ReturnAt, Hit;
    forall i | 0 <= i < |code|
      ensures PatchedAt(code, base, apiLevel, lo, at + 2, i)
        == if i == at then 0xFF else if i == at + 1 then 0xDE else PatchedAt(code, base, apiLevel, lo, at, i)
    {
    }
    hide PatchedAt;
  }

  /** An SVC at an odd address is skipped by one byte. */
  lemma SkipOdd(code: seq<byte>, base: nat, apiLevel: int, lo: nat, at: nat)
    requires lo <= at && (base + at) % 2 == 1
    ensures Hits(code, base, apiLevel, lo, at + 1) == Hits(code, base, apiLevel, lo, at)
    ensures Patched(code, base, apiLevel, lo, at + 1) == Patched(code, base, apiLevel, lo, at)
    ensures !Hit(code, base, apiLevel, at)
  {
    NoHits(code, base, apiLevel, lo, at, at + 1);
  }

  /** An SVC that no return follows is skipped by two bytes. */
  lemma SkipUnreturned(code: seq<byte>, base: nat, apiLevel: int, lo: nat, at: nat)
    requires lo <= at && (base + at) % 2 == 0 && apiLevel >= 23 && !ReturnAt(code, at + 2)
    ensures Hits(code, base, apiLevel, lo, at + 2) == Hits(code, base, apiLevel, lo, at)
    ensures Patched(code, base, apiLevel, lo, at + 2) == Patched(code, base, apiLevel, lo, at)
    ensures !Hit(code, base, apiLevel, at + 1)
  {
    NoHits(code, base, apiLevel, lo, at, at + 2);
  }

  /** A second pass over the same range finds nothing and changes nothing. */
  lemma SecondPass(code: seq<byte>, base: nat, apiLevel: int, lo: nat, hi: int)
    ensures var once := Patched(code, base, apiLevel, lo, hi);
      Hits(once, base, apiLevel, lo, hi) == [] && Patched(once, base, apiLevel, lo, hi) == once
  {
    var once := Patched(code, base, apiLevel, lo, hi);
    forall i: nat | lo <= i < hi
      ensures !Hit(once, base, apiLevel, i)
    {
      if Hit(once, base, apiLevel, i) {
        NoNewHits(code, base, apiLevel, lo, hi, i);
      }
    }
    NoHits(once, base, apiLevel, lo, lo, hi);
    assert Hits(once, base, apiLevel, lo, lo) == [] && Patched(once, base, apiLevel, lo, lo) == once;
  }

  /** A system call in a range, byte by byte: 01 DF at an even address, from level 23 on followed by 00 29 or
      70 47. */
  predicate IsCall(code: seq<byte>, base: nat, apiLevel: int, start: nat, size: nat, i: int) {
    && start <= i && i + 1 < start + size && i + 1 < |code| && (base + i) % 2 == 0
    && code[i] == 0x01 && code[i + 1] == 0xDF
    && (apiLevel >= 23 ==>
          i + 3 < |code| && ((code[i + 2] == 0x00 && code[i + 3] == 0x29) || (code[i + 2] == 0x70 && code[i + 3] == 0x47)))
  }

  /** Exactly the system calls of the range became FF DE, and exactly their addresses were added. */
  ghost predicate PatchesCalls(code: seq<byte>, patched: seq<byte>, before: seq<int>, after: seq<int>,
                               base: nat, apiLevel: int, start: nat, size: nat) {
    && |patched| == |code|
    && (forall i :: 0 <= i < |patched| ==>
          patched[i] == (if IsCall(code, base, apiLevel, start, size, i) then 0xFF
                         else if IsCall(code, base, apiLevel, start, size, i - 1) then 0xDE else code[i]))
    && forall a: int :: a in after <==> a in before || IsCall(code, base, apiLevel, start, size, a - base)
  }

  lemma CallIsHit(code: seq<byte>, base: nat, apiLevel: int, start: nat, size: nat, i: int)
    ensures IsCall(code, base, apiLevel, start, size, i) <==>
      start <= i < start + size - 1 && Hit(code, base, apiLevel, i)
  {
  }

  lemma PatchedBytes(code: seq<byte>, before: seq<int>, base: nat, apiLevel: int, start: nat, size: nat)
    ensures PatchesCalls(code, Patched(code, base, apiLevel, start, start + size - 1),
                         before, before + Hits(code, base, apiLevel, start, start + size - 1),
                         base, apiLevel, start, size)
  {
    hide IsCall, Hit, Hits;
    var patched := Patched(code, base, apiLevel, start, start + size - 1);
    var hits := Hits(code, base, apiLevel, start, start + size - 1);
    forall i | 0 <= i < |patched|
      ensures patched[i] == (if IsCall(code, base, apiLevel, start, size, i) then 0xFF
                             else if IsCall(code, base, apiLevel, start, size, i - 1) then 0xDE else code[i])
    {
      CallIsHit(code, base, apiLevel, start, size, i);
      CallIsHit(code, base, apiLevel, start, size, i - 1);
    }
    forall a: int
      ensures a in before + hits <==> a in before || IsCall(code, base, apiLevel, start, size, a - base)
    {
      CallIsHit(code, base, apiLevel, start, size, a - base);
      HitsAreListed(code, base, apiLevel, start, start + size - 1, a);
    }
  }

  /** The code as loaded, the code now and the recorded addresses agree: the recorded addresses are
      distinct, even, held `svc 1` and hold an undefined instruction; nothing else has changed. */
  ghost predicate Consistent(original: seq<byte>, code: seq<byte>, base: nat, recorded: seq<int>) {
    && |original| == |code|
    && (forall a :: a in recorded ==> WasCall(original, base, a))
    && Distinct(recorded)
    && (forall i :: 0 <= i < |code| ==> code[i] == Rewritten(original, base, recorded, i))
  }

  /** The address is even and held `svc 1`. */
  predicate WasCall(original: seq<byte>, base: nat, a: int) {
    a % 2 == 0 && base <= a && SvcAt(original, a - base)
  }

  predicate Distinct(addresses: seq<int>) {
    forall j, k :: 0 <= j < k < |addresses| ==> addresses[j] != addresses[k]
  }

  /** A byte of the code once the recorded addresses hold undefined instructions. */
  function Rewritten(original: seq<byte>, base: nat, recorded: seq<int>, i: nat): byte
    requires i < |original|
  {
    if base + i in recorded then 0xFF else if base + i - 1 in recorded then 0xDE else original[i]
  }

  lemma DistinctAppend(a: seq<int>, b: seq<int>)
    requires Distinct(a) && Distinct(b) && forall x :: x in b ==> x !in a
    ensures Distinct(a + b)
  {
    forall j, k | 0 <= j < k < |a + b|
      ensures (a + b)[j] != (a + b)[k]
    {
      if j < |a| <= k {
        assert b[k - |a|] in b && a[j] in a;
      }
    }
  }

  /** A hit of the current code has not been recorded and was a system call when loaded. */
  lemma HitIsOriginal(original: seq<byte>, code: seq<byte>, base: nat, recorded: seq<int>, apiLevel: int, i: nat)
    requires Consistent(original, code, base, recorded) && Hit(code, base, apiLevel, i)
    ensures base + i !in recorded && base + i + 1 !in recorded && base + i - 1 !in recorded
    ensures SvcAt(original, i)
  {
    assert code[i] == 0x01 && code[i + 1] == 0xDF;
    assert base + (i + 1) - 1 == base + i;
  }

  /** The addresses of new hits may be recorded. */
  lemma HitMayBeRecorded(original: seq<byte>, code: seq<byte>, base: nat, recorded: seq<int>,
                         apiLevel: int, lo: nat, hi: int, a: int)
    requires Consistent(original, code, base, recorded) && a in Hits(code, base, apiLevel, lo, hi)
    ensures a !in recorded && WasCall(original, base, a)
  {
    HitsAreListed(code, base, apiLevel, lo, hi, a);
    HitIsOriginal(original, code, base, recorded, apiLevel, a - base);
  }

  /** Every byte after patching is explained by the longer list. */
  lemma PatchedByte(original: seq<byte>, code: seq<byte>, base: nat, recorded: seq<int>,
                    apiLevel: int, lo: nat, hi: int, i: nat)
    requires Consistent(original, code, base, recorded) && i < |code|
    ensures Patched(code, base, apiLevel, lo, hi)[i]
      == Rewritten(original, base, recorded + Hits(code, base, apiLevel, lo, hi), i)
  {
    HitsAreListed(code, base, apiLevel, lo, hi, base + i);
    HitsAreListed(code, base, apiLevel, lo, hi, base + i - 1);
    hide Hits;
    if Hit(code, base, apiLevel, i) {
      HitIsOriginal(original, code, base, recorded, apiLevel, i);
    }
    if i > 0 && Hit(code, base, apiLevel, i - 1) {
      HitIsOriginal(original, code, base, recorded, apiLevel, i - 1);
    }
  }

  /** Recording more hits of the current code keeps all of that. */
  lemma PatchingIsConsistent(original: seq<byte>, code: seq<byte>, base: nat, recorded: seq<int>,
                             apiLevel: int, lo: nat, hi: int)
    requires Consistent(original, code, base, recorded)
    ensures Consistent(original, Patched(code, base, apiLevel, lo, hi), base,
                       recorded + Hits(code, base, apiLevel, lo, hi))
  {
    var hits := Hits(code, base, apiLevel, lo, hi);
    HitsAscend(code, base, apiLevel, lo, hi);
    hide Hits, Patched, PatchedAt, Rewritten, WasCall, Hit;
    forall a | a in hits
      ensures a !in recorded && WasCall(original, base, a)
    {
      HitMayBeRecorded(original, code, base, recorded, apiLevel, lo, hi, a);
    }
    DistinctAppend(recorded, hits);
    hide Distinct;
    forall i | 0 <= i < |code|
      ensures Patched(code, base, apiLevel, lo, hi)[i] == Rewritten(original, base, recorded + hits, i)
    {
      PatchedByte(original, code, base, recorded, apiLevel, lo, hi, i);
    }
  }

  class Patcher {
    const apiLevel: int
    const base: nat
    const mem: array<byte>
    var svcAddr: seq<int>
    ghost var loaded: seq<byte>

    /** After any sequence of patch calls. */
    ghost predicate Valid()
      reads this, mem
    {
      Consistent(loaded, mem[..], base, svcAddr)
    }

    constructor (apiLevel: int, base: nat, mem: array<byte>)
      ensures Valid() && this.apiLevel == apiLevel && this.base == base && this.mem == mem
      ensures svcAddr == [] && loaded == mem[..]
    {
      this.apiLevel, this.base, this.mem := apiLevel, base, mem;
      svcAddr := [];
      loaded := mem[..];
    }

    /** Whether the signal handler treats the instruction at an address as a system call: exactly
        when it was `svc 1` when loaded and a patch call has rewritten it. */
    method IsSyscallInstruction(addr: int) returns (found: bool)
      requires Valid()
      ensures found <==> addr in svcAddr
      ensures found <==>
        && addr % 2 == 0 && base <= addr && addr - base + 1 < mem.Length == |loaded|
        && loaded[addr - base] == 0x01 && loaded[addr - base + 1] == 0xDF
        && mem[addr - base] == 0xFF && mem[addr - base + 1] == 0xDE
    {
      assert mem[..] == mem[..mem.Length];
      for i := 0 to |svcAddr|
        invariant addr !in svcAddr[..i]
      {
        if svcAddr[i] == addr {
          assert addr in svcAddr;
          assert mem[..][addr - base] == 0xFF && mem[..][addr - base + 1] == 0xDE by {
            assert base + (addr - base + 1) - 1 == addr;
            OddIsNotRecorded(addr + 1);
          }
          return true;
        }
      }
      assert svcAddr[..|svcAddr|] == svcAddr;
      if addr % 2 == 0 && base <= addr && SvcAt(loaded, addr - base) {
        OddIsNotRecorded(addr - 1);
        assert mem[..][addr - base] == loaded[addr - base];
      }
      return false;
    }

    lemma OddIsNotRecorded(a: int)
      requires Valid() && a % 2 == 1
      ensures a !in svcAddr
    {
    }

    /** memmem for the two bytes of `svc 1`: the first occurrence in lo .. end. */
    method FindSvc(lo: nat, end: nat) returns (found: bool, at: nat)
      requires end <= mem.Length
      ensures found ==> lo <= at && at + 1 < end && SvcAt(mem[..], at)
      ensures !found ==> at == Arith.Max(lo, end - 1)
      ensures forall i: nat :: lo <= i < at ==> !SvcAt(mem[..], i)
    {
      at := lo;
      while at + 1 < end
        invariant lo <= at <= Arith.Max(lo, end - 1)
        invariant forall i: nat :: lo <= i < at ==> !SvcAt(mem[..], i)
      {
        if mem[at] == 0x01 && mem[at + 1] == 0xDF {
          return true, at;
        }
        at := at + 1;
      }
      return false, at;
    }

    /** Patch a range of code.  The two bytes after the range are read as well. */
    method PatchSvc(start: nat, size: nat) returns (ret: int)
      requires Valid()
      requires start + size <= mem.Length && (apiLevel >= 23 ==> start + size + 2 <= mem.Length)
      modifies this`svcAddr, mem
      ensures Valid()
      ensures mem[..] == Patched(old(mem[..]), base, apiLevel, start, start + size - 1)
      ensures svcAddr == old(svcAddr) + Hits(old(mem[..]), base, apiLevel, start, start + size - 1)
      ensures PatchesCalls(old(mem[..]), mem[..], old(svcAddr), svcAddr, base, apiLevel, start, size)
      ensures ret == if svcAddr == [] then -1 else 0
    {
      hide Consistent, PatchesCalls, Patched, Hits;
      ghost var code, before := mem[..], svcAddr;
      PatchRange(start, start + size);
      PatchingIsConsistent(loaded, code, base, before, apiLevel, start, start + size - 1);
      PatchedBytes(code, before, base, apiLevel, start, size);
      ret := if |svcAddr| == 0 then -1 else 0;
    }

    /** The loop over the SVCs of a range. */
    method PatchRange(start: nat, end: nat)
      requires start <= end <= mem.Length && (apiLevel >= 23 ==> end + 2 <= mem.Length)
      modifies this`svcAddr, mem
      ensures mem[..] == Patched(old(mem[..]), base, apiLevel, start, end - 1)
      ensures svcAddr == old(svcAddr) + Hits(old(mem[..]), base, apiLevel, start, end - 1)
    {
      ghost var code := mem[..];
      var addr := start;
      hide SvcAt, Hit;
      NothingPatched(code, start);
      hide Patched, PatchedAt, Hits, Arith.Max;
      while addr <= end - 2
        invariant start <= addr <= end
        invariant mem[..] == Patched(code, base, apiLevel, start, addr)
        invariant addr > start ==> !Hit(code, base, apiLevel, addr - 1)
        invariant svcAddr == old(svcAddr) + Hits(code, base, apiLevel, start, addr)
        decreases end - addr
      {
        var found, next := FindNext(addr, end, code, start);
        if !found {
          break;
        }
        addr := PatchFound(next, code, start, old(svcAddr));
      }
      RangeIsDone(code, start, addr, end);
    }

    /** The head of the loop: what lies before the next SVC needs no patch. */
    method FindNext(addr: nat, end: nat, ghost code: seq<byte>, ghost start: nat) returns (found: bool, next: nat)
      requires start <= addr <= end - 2 && end <= mem.Length && mem[..] == Patched(code, base, apiLevel, start, addr)
      requires addr > start ==> !Hit(code, base, apiLevel, addr - 1)
      ensures addr <= next && (found ==> next + 1 < end && SvcAt(code, next)) && (!found ==> next == end - 1)
      ensures mem[..] == Patched(code, base, apiLevel, start, next)
      ensures Hits(code, base, apiLevel, start, addr) == Hits(code, base, apiLevel, start, next)
      ensures forall i :: next <= i < mem.Length ==> mem[i] == code[i]
      ensures !found ==> Patched(code, base, apiLevel, start, addr) == Patched(code, base, apiLevel, start, end - 1)
    {
      hide Patched, Hits, Hit;
      found, next := FindSvc(addr, end);
      NoSvcBetween(code, start, addr, next);
    }

    /** The body of the loop once an SVC is found: skip it or patch it, and say where to go on. */
    method PatchFound(next: nat, ghost code: seq<byte>, ghost start: nat, ghost before: seq<int>)
      returns (addr: nat)
      requires start <= next && |code| == mem.Length && SvcAt(code, next)
      requires apiLevel >= 23 ==> next + 3 < mem.Length
      requires mem[..] == Patched(code, base, apiLevel, start, next)
      requires forall i :: next <= i < mem.Length ==> mem[i] == code[i]
      requires svcAddr == before + Hits(code, base, apiLevel, start, next)
      modifies this`svcAddr, mem
      ensures next < addr <= next + 2 && !Hit(code, base, apiLevel, addr - 1)
      ensures mem[..] == Patched(code, base, apiLevel, start, addr)
      ensures svcAddr == before + Hits(code, base, apiLevel, start, addr)
    {
      hide Patched, Hits;
      if (base + next) % 2 == 1 {
        SkipOdd(code, base, apiLevel, start, next);
        return next + 1;
      }
      if apiLevel >= 23 && !(mem[next + 2] == 0x00 && mem[next + 3] == 0x29)
         && !(mem[next + 2] == 0x70 && mem[next + 3] == 0x47) {
        SkipUnreturned(code, base, apiLevel, start, next);
        return next + 2;
      }
      OneMoreHit(code, base, apiLevel, start, next);
      svcAddr := svcAddr + [base + next];
      mem[next] := 0xFF;
      mem[next + 1] := 0xDE;
      return next + 2;
    }

    lemma NothingPatched(code: seq<byte>, start: nat)
      ensures Patched(code, base, apiLevel, start, start) == code && Hits(code, base, apiLevel, start, start) == []
    {
    }

    /** The last offset of a range cannot be a hit: its second byte lies outside. */
    lemma RangeIsDone(code: seq<byte>, start: nat, addr: nat, end: nat)
      requires start <= addr <= end && (addr > start ==> !Hit(code, base, apiLevel, addr - 1))
      ensures Patched(code, base, apiLevel, start, Arith.Max(addr, end - 1)) == Patched(code, base, apiLevel, start, end - 1)
      ensures Hits(code, base, apiLevel, start, Arith.Max(addr, end - 1)) == Hits(code, base, apiLevel, start, end - 1)
    {
    }

    /** The code from `from` on is still as it was: no SVC there now means none before. */
    lemma NoSvcBetween(code: seq<byte>, lo: nat, from: nat, to: int)
      requires lo <= from && mem[..] == Patched(code, base, apiLevel, lo, from)
      requires from > lo ==> !Hit(code, base, apiLevel, from - 1)
      requires forall i: nat :: from <= i < to ==> !SvcAt(mem[..], i)
      ensures Patched(code, base, apiLevel, lo, from) == Patched(code, base, apiLevel, lo, Arith.Max(from, to))
      ensures Hits(code, base, apiLevel, lo, from) == Hits(code, base, apiLevel, lo, Arith.Max(from, to))
      ensures forall i :: from <= i < mem.Length ==> mem[i] == code[i]
      ensures forall i: nat :: from <= i < to ==> !SvcAt(code, i)
    {
      forall i | from <= i < mem.Length
        ensures mem[i] == code[i]
      {
        assert mem[..][i] == Patched(code, base, apiLevel, lo, from)[i];
      }
      forall i: nat | from <= i < to
        ensures !SvcAt(code, i)
      {
        assert !SvcAt(mem[..], i);
      }
      NoHits(code, base, apiLevel, lo, from, to);
    }

    /** Patch the single instruction at an address. */
    method PatchSvcInstr(at: nat) returns (ret: int)
      requires Valid() && at + 1 < mem.Length
      modifies this`svcAddr, mem
      ensures Valid()
      ensures ret == if old(mem[at]) == 0x01 && old(mem[at + 1]) == 0xDF && (base + at) % 2 == 0 then 0 else -1
      ensures ret == -1 ==> mem[..] == old(mem[..]) && svcAddr == old(svcAddr)
      ensures ret == 0 ==> svcAddr == old(svcAddr) + [base + at]
      ensures ret == 0 ==> mem[..] == old(mem[..])[at := 0xFF][at + 1 := 0xDE]
    {
      if !(mem[at] == 0x01 && mem[at + 1] == 0xDF) {
        return -1;
      }
      if (base + at) % 2 == 1 {
        return -1;
      }
      ghost var code := mem[..];
      PatchingIsConsistent(loaded, code, base, svcAddr, 0, at, at + 1);
      assert Hits(code, base, 0, at, at) == [];
      svcAddr := svcAddr + [base + at];
      mem[at] := 0xFF;
      mem[at + 1] := 0xDE;
      assert mem[..] == Patched(code, base, 0, at, at + 1);
      return 0;
    }
  }
}
