/** pipe.c: the ring buffer with its 32-bit counters, and the channels its users sleep on.

    Each method is what one process does between taking p->lock and giving it up (by
    returning or inside sleep()), so an arbitrary sequence of calls is an arbitrary
    interleaving of readers and writers. */
module Pipe {
  import opened Blocks

  const PIPESIZE := 512
  const WRAP := 0x1_0000_0000

  // ---------------------------------------------------------------- counters that wrap

  /** 512 divides 2^32, so wrapping a counter does not move its slot. */
  lemma SlotOfWrapped(n: nat)
    ensures n % WRAP % PIPESIZE == n % PIPESIZE
  {
    var q := n / WRAP;
    assert n == q * WRAP + n % WRAP;
    assert q * WRAP == (q * 0x80_0000) * PIPESIZE;
    SlotShift(n % WRAP, q * 0x80_0000);
  }

  lemma {:induction false} SlotShift(m: nat, k: nat)
    ensures (k * PIPESIZE + m) % PIPESIZE == m % PIPESIZE
  {
    if k > 0 {
      SlotShift(m, k - 1);
      assert (k - 1) * PIPESIZE + m + PIPESIZE == k * PIPESIZE + m;
    }
  }

  /** With at most PIPESIZE bytes in flight, the wrapped counters still tell empty and full apart from the rest. */
  lemma WrappedTests(written: nat, taken: nat)
    requires taken <= written <= taken + PIPESIZE
    ensures written % WRAP == taken % WRAP <==> written == taken
    ensures written % WRAP == (taken % WRAP + PIPESIZE) % WRAP <==> written == taken + PIPESIZE
  {
  }

  // ---------------------------------------------------------------- the wait channels

  datatype Chan = ReadChan | WriteChan      // &p->nread, &p->nwrite

  /** What the wait conditions depend on. */
  datatype View = View(inFlight: nat, readOpen: bool, writeOpen: bool)

  /** piperead sleeps while the pipe is empty with a writer open, pipewrite while it is full with a reader open. */
  predicate Waits(v: View, c: Chan) {
    match c
    case ReadChan => v.inFlight == 0 && v.writeOpen
    case WriteChan => v.inFlight == PIPESIZE && v.readOpen
  }

  /** How a stretch of pipewrite under the lock ends. */
  datatype WriteEnd = Written | WriteSleeps | WriteFails

  /** What one process does between taking p->lock and giving it up: the bytes it still has to write or wants to
      read, and whether it has been killed. */
  datatype Call = WriteCall(want: nat, killed: bool) | ReadCall(want: nat, killed: bool) | CloseCall(writable: bool)

  /** The pipe after the call: a write fills what room there is, a read takes what it finds. */
  function After(v: View, call: Call): View
    requires v.inFlight <= PIPESIZE
  {
    match call
    case WriteCall(want, _) => v.(inFlight := if want <= PIPESIZE - v.inFlight then v.inFlight + want else PIPESIZE)
    case ReadCall(want, _) => v.(inFlight := if want <= v.inFlight then v.inFlight - want else 0)
    case CloseCall(writable) => if writable then v.(writeOpen := false) else v.(readOpen := false)
  }

  /** The channels the call wakes. A write that finds no room and cannot wait wakes nobody. */
  function Wakes(v: View, call: Call): set<Chan>
    requires v.inFlight <= PIPESIZE
  {
    match call
    case WriteCall(want, killed) => if PIPESIZE - v.inFlight < want && (killed || !v.readOpen) then {} else {ReadChan}
    case ReadCall(_, _) => if Waits(v, ReadChan) then {} else {WriteChan}
    case CloseCall(writable) => if writable then {ReadChan} else {WriteChan}
  }

  /** A writer that has been killed, or has no reader, and has more for an empty pipe than it holds. */
  predicate SilentFill(v: View, call: Call) {
    call.WriteCall? && v.inFlight == 0 && v.writeOpen && PIPESIZE < call.want && (call.killed || !v.readOpen)
  }

  // ---------------------------------------------------------------- the ring

  /** The ring holds the bytes from lo on. */
  ghost predicate Holds(data: seq<Byte>, all: seq<Byte>, lo: nat) {
    |data| == PIPESIZE && forall k: nat {:trigger all[k]} :: lo <= k < |all| ==> data[k % PIPESIZE] == all[k]
  }

  /** The next byte goes into a slot that none of the others is in. */
  lemma HoldsPut(data: seq<Byte>, all: seq<Byte>, lo: nat, x: Byte)
    requires Holds(data, all, lo) && |all| < lo + PIPESIZE
    ensures Holds(data[|all| % PIPESIZE := x], all + [x], lo)
  {
    forall k: nat | lo <= k < |all|
      ensures k % PIPESIZE != |all| % PIPESIZE
    {
      SlotsDiffer(k, |all|);
    }
  }

  /** Counting up in 32 bits. */
  lemma NextWrapped(n: nat)
    ensures (n % WRAP + 1) % WRAP == (n + 1) % WRAP
  {
    assert n == WRAP * (n / WRAP) + n % WRAP;
  }

  datatype ReadResult = Sleeps | Killed | Took(bytes: seq<Byte>)

  class Pipe {
    const data: array<Byte>
    var nread: nat
    var nwrite: nat
    var readOpen: bool
    var writeOpen: bool
    ghost var accepted: seq<Byte>       // every byte pipewrite has stored
    ghost var delivered: seq<Byte>      // every byte piperead has handed out

    /** First in, first out: the bytes delivered are a prefix of the bytes accepted, at most PIPESIZE are in
        flight, and those are in the ring. The counters are the totals modulo 2^32. */
    ghost predicate Valid()
      reads this, data
    {
      && data.Length == PIPESIZE
      && delivered <= accepted
      && |accepted| <= |delivered| + PIPESIZE
      && nread == |delivered| % WRAP
      && nwrite == |accepted| % WRAP
      && Holds(data[..], accepted, |delivered|)
    }

    ghost function State(): View
      requires Valid()
      reads this, data
    {
      View(|accepted| - |delivered|, readOpen, writeOpen)
    }

    /** pipealloc */
    constructor ()
      ensures Valid() && fresh(data) && accepted == [] && delivered == [] && readOpen && writeOpen
    {
      data := new Byte[PIPESIZE](i => 0);
      nread, nwrite, readOpen, writeOpen := 0, 0, true, true;
      accepted, delivered := [], [];
    }

    /** x joins the ring. */
    method Put(x: Byte)
      requires Valid() && |accepted| < |delivered| + PIPESIZE
      modifies `nwrite, `accepted, data
      ensures Valid() && accepted == old(accepted) + [x]
    {
      SlotOfWrapped(|accepted|);
      NextWrapped(|accepted|);
      HoldsPut(data[..], accepted, |delivered|, x);
      data[nwrite % PIPESIZE] := x;
      assert data[..] == old(data[..])[|accepted| % PIPESIZE := x];
      nwrite := (nwrite + 1) % WRAP;
      accepted := accepted + [x];
    }

    /** The oldest byte leaves the ring. */
    method Take() returns (x: Byte)
      requires Valid() && |delivered| < |accepted|
      modifies `nread, `delivered
      ensures Valid() && delivered == old(delivered) + [x]
    {
      SlotOfWrapped(|delivered|);
      NextWrapped(|delivered|);
      x := data[nread % PIPESIZE];
      assert x == data[..][|delivered| % PIPESIZE] == accepted[|delivered|];
      nread := (nread + 1) % WRAP;
      delivered := delivered + [x];
    }

    /** pipewrite from byte i until it finishes, sleeps or fails: addr[i..j] is accepted in order. */
    method WriteSome(addr: seq<Byte>, i: nat, killed: bool) returns (j: nat, end: WriteEnd, woken: set<Chan>)
      requires Valid() && i <= |addr|
      modifies `nwrite, `accepted, data
      ensures Valid()
      ensures i <= j <= |addr| && accepted == old(accepted) + addr[i..j]
      ensures end == Written <==> j == |addr|
      ensures end != Written ==> (end == WriteFails <==> !readOpen || killed)
      ensures State() == After(old(State()), WriteCall(|addr| - i, killed)) && woken == Wakes(old(State()), WriteCall(|addr| - i, killed))
    {
      j := i;
      while j < |addr|
        invariant i <= j <= |addr| && Valid()
        invariant accepted == old(accepted) + addr[i..j]
      {
        WrappedTests(|accepted|, |delivered|);
        if nwrite == (nread + PIPESIZE) % WRAP {
          if !readOpen || killed {
            return j, WriteFails, {};
          }
          return j, WriteSleeps, {ReadChan};
        }
        Put(addr[j]);
        j := j + 1;
      }
      return j, Written, {ReadChan};
    }

    /** piperead until it sleeps or returns: the bytes taken are the next ones accepted, as many as there are, up
        to n. */
    method Read(n: nat, killed: bool) returns (r: ReadResult, woken: set<Chan>)
      requires Valid()
      modifies `nread, `delivered
      ensures Valid()
      ensures r.Took? <==> !Waits(old(State()), ReadChan)
      ensures r.Took? ==> delivered == old(delivered) + r.bytes && (|r.bytes| == n || delivered == accepted) && |r.bytes| <= n
      ensures !r.Took? ==> delivered == old(delivered) && (r.Killed? <==> killed)
      ensures State() == After(old(State()), ReadCall(n, killed)) && woken == Wakes(old(State()), ReadCall(n, killed))
    {
      WrappedTests(|accepted|, |delivered|);
      if nread == nwrite && writeOpen {
        if killed {
          return Killed, {};
        }
        return Sleeps, {};
      }
      var bytes: seq<Byte> := [];
      while |bytes| < n
        invariant |bytes| <= n && Valid()
        invariant delivered == old(delivered) + bytes
        decreases n - |bytes|
      {
        WrappedTests(|accepted|, |delivered|);
        if nread == nwrite {
          break;
        }
        var x := Take();
        bytes := bytes + [x];
      }
      return Took(bytes), {WriteChan};
    }

    /** pipeclose: one end closes, its other end is woken, and the page is freed when both are closed. */
    method Close(writable: bool) returns (woken: set<Chan>, freed: bool)
      requires Valid()
      modifies `readOpen, `writeOpen
      ensures Valid()
      ensures State() == After(old(State()), CloseCall(writable)) && woken == Wakes(old(State()), CloseCall(writable))
      ensures freed <==> !readOpen && !writeOpen
    {
      if writable {
        writeOpen := false;
        woken := {ReadChan};
      } else {
        readOpen := false;
        woken := {WriteChan};
      }
      freed := !readOpen && !writeOpen;
    }
  }

  lemma SlotsDiffer(k: nat, n: nat)
    requires k < n < k + PIPESIZE
    ensures k % PIPESIZE != n % PIPESIZE
  {
  }
}
