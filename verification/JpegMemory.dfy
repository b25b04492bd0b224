/**
 * The planes of the JPEG encoder's thumbnail pictures: each has an ION buffer and a mapping of it. The
 * encoder allocates them all or none, and frees what it has before it asks again.
 */
module JpegMemory {

  const NO_BUFFER: int := -1
  const MAP_FAILED: int := -1
  const NULL: int := 0

  datatype Error = NONE | BUFFR_IS_NULL | MEM_ALLOC_FAIL

  /** What ION answers when it would like to hand out the first number of `script`: that buffer, or -1. */
  function Grant(script: seq<int>, buffers: map<int, nat>): (buffer: int)
    ensures buffer == -1 || (0 <= buffer && buffer !in buffers)
  {
    if script == [] || script[0] < 0 || script[0] in buffers then -1 else script[0]
  }

  /** What is mapped at an address. */
  datatype Mapping = Mapping(buffer: int, length: nat)

  /** ION and the address space: the open buffers with their sizes, and what is mapped at which address. `script` is
      what ION is going to answer, and `answers` is what it has answered. */
  class Ion {
    var buffers: map<int, nat>
    var mappings: map<int, Mapping>
    var script: seq<int>
    ghost var answers: seq<int>

    constructor (script: seq<int>)
      ensures buffers == map[] && mappings == map[] && this.script == script && answers == []
    {
      buffers, mappings, answers := map[], map[], [];
      this.script := script;
    }

    /** A new buffer, which may be number 0, or -1. */
    method Alloc(size: nat) returns (buffer: int)
      modifies this`buffers, this`script, this`answers
      ensures buffer == Grant(old(script), old(buffers)) && answers == old(answers) + [buffer]
      ensures buffers == if buffer == -1 then old(buffers) else old(buffers)[buffer := size]
    {
      buffer := Grant(script, buffers);
      script := if script == [] then [] else script[1..];
      answers := answers + [buffer];
      if buffer != -1 {
        buffers := buffers[buffer := size];
      }
    }

    /** A new address, or MAP_FAILED or NULL. */
    method Map(buffer: int, size: nat) returns (address: int)
      requires buffer in buffers
      modifies this`mappings
      ensures address == MAP_FAILED || address == NULL ==> mappings == old(mappings)
      ensures address != MAP_FAILED && address != NULL ==>
                0 < address && address !in old(mappings) && mappings == old(mappings)[address := Mapping(buffer, size)]
    {
      address := *;
      if address <= 0 || address in mappings {
        address := if address == 0 then NULL else MAP_FAILED;
      } else {
        mappings := mappings[address := Mapping(buffer, size)];
      }
    }

    /** Only a whole mapping is unmapped, and once. */
    method Unmap(address: int, size: nat)
      requires address in mappings && mappings[address].length == size
      modifies this`mappings
      ensures mappings == old(mappings) - {address}
    {
      mappings := mappings - {address};
    }

    /** A buffer is freed once. */
    method Free(buffer: int)
      requires buffer in buffers
      modifies this`buffers
      ensures buffers == old(buffers) - {buffer}
    {
      buffers := buffers - {buffer};
    }
  }

  /** Everything that is open and nobody's: what others have, and the buffer numbered 0 once ION has answered 0. */
  ghost function WithZero(others: set<int>, answers: seq<int>): set<int> {
    if 0 in answers then others + {0} else others
  }

  /** A value is among the entries from `lo` up to `hi`. */
  ghost predicate Among(s: seq<int>, lo: nat, hi: nat, x: int) {
    exists i :: lo <= i < hi <= |s| && s[i] == x
  }

  /**
   * What is open is somebody else's, or belongs to one of the planes from `lo` up to `hi`; no two planes
   * share a buffer or an address, and each buffer and its mapping are as long as their plane says.
   */
  ghost predicate Accounts(open: map<int, nat>, mapped: map<int, Mapping>, others: set<int>,
                           otherMaps: map<int, Mapping>, buffers: seq<int>, addresses: seq<int>, sizes: seq<nat>,
                           lo: nat, hi: nat)
  {
    && lo <= hi <= |buffers| == |addresses| == |sizes|
    && (forall b :: b in open <==> b in others || (b != NO_BUFFER && Among(buffers, lo, hi, b)))
    && (forall a :: a in mapped <==> a in otherMaps || (a != MAP_FAILED && Among(addresses, lo, hi, a)))
    && (forall i | lo <= i < hi :: buffers[i] != NO_BUFFER ==> buffers[i] !in others)
    && (forall i | lo <= i < hi :: addresses[i] != MAP_FAILED ==>
          && addresses[i] !in otherMaps && addresses[i] in mapped
          && mapped[addresses[i]] == Mapping(buffers[i], sizes[i]) && buffers[i] != NO_BUFFER)
    && (forall i | lo <= i < hi && buffers[i] != NO_BUFFER && buffers[i] in open :: open[buffers[i]] == sizes[i])
    && (forall i, j | lo <= i < j < hi :: buffers[i] == buffers[j] ==> buffers[i] == NO_BUFFER)
    && (forall i, j | lo <= i < j < hi :: addresses[i] == addresses[j] ==> addresses[i] == MAP_FAILED)
    && (forall a | a in otherMaps && a in mapped :: mapped[a] == otherMaps[a])
  }

  lemma AmongRest(s: seq<int>, t: seq<int>, lo: nat, hi: nat)
    requires lo < hi <= |s| == |t| && s[lo + 1..hi] == t[lo + 1..hi]
    ensures forall x :: Among(s, lo, hi, x) <==> x == s[lo] || Among(t, lo + 1, hi, x)
  {
    assert forall i | lo < i < hi :: s[i] == s[lo + 1..hi][i - lo - 1] && t[i] == t[lo + 1..hi][i - lo - 1];
    forall x | Among(s, lo, hi, x) && x != s[lo]
      ensures Among(t, lo + 1, hi, x)
    {
      var i :| lo <= i < hi && s[i] == x;
      assert t[i] == x;
    }
    forall x | Among(t, lo + 1, hi, x)
      ensures Among(s, lo, hi, x)
    {
      var i :| lo + 1 <= i < hi && t[i] == x;
      assert s[i] == x;
    }
  }

  /**
   * The first plane's buffer and mapping are there to be released, and releasing them leaves the other
   * planes accounted for.
   */
  lemma OneFreed(open: map<int, nat>, mapped: map<int, Mapping>, others: set<int>, otherMaps: map<int, Mapping>,
      buffers: seq<int>, addresses: seq<int>, sizes: seq<nat>, lo: nat, hi: nat)
    requires lo < hi && Accounts(open, mapped, others, otherMaps, buffers, addresses, sizes, lo, hi)
    ensures lo < |buffers| == |addresses| == |sizes|
    ensures buffers[lo] != NO_BUFFER ==> buffers[lo] in open && open[buffers[lo]] == sizes[lo]
    ensures addresses[lo] != MAP_FAILED ==>
              addresses[lo] in mapped && mapped[addresses[lo]] == Mapping(buffers[lo], sizes[lo])
    ensures addresses[lo] != MAP_FAILED ==> buffers[lo] != NO_BUFFER
    ensures Accounts(if buffers[lo] == NO_BUFFER then open else open - {buffers[lo]},
                     if addresses[lo] == MAP_FAILED then mapped else mapped - {addresses[lo]},
                     others, otherMaps, buffers[lo := NO_BUFFER], addresses[lo := MAP_FAILED], sizes[lo := 0],
                     lo + 1, hi)
  {
    AmongRest(buffers, buffers[lo := NO_BUFFER], lo, hi);
    AmongRest(addresses, addresses[lo := MAP_FAILED], lo, hi);
    assert Among(buffers, lo, hi, buffers[lo]);
  }

  /** Planes that hold nothing can be counted in or left out. */
  lemma NoneHeld(open: map<int, nat>, mapped: map<int, Mapping>, others: set<int>, otherMaps: map<int, Mapping>,
      buffers: seq<int>, addresses: seq<int>, sizes: seq<nat>, hi: nat)
    requires Accounts(open, mapped, others, otherMaps, buffers, addresses, sizes, hi, hi)
    requires forall k | 0 <= k < hi :: buffers[k] == NO_BUFFER && addresses[k] == MAP_FAILED
    ensures Accounts(open, mapped, others, otherMaps, buffers, addresses, sizes, 0, hi)
  {
  }

  lemma AmongUpdated(s: seq<int>, i: nat, hi: nat, v: int)
    requires i < hi <= |s|
    ensures forall x :: x != s[i] && Among(s, 0, hi, x) ==> Among(s[i := v], 0, hi, x)
    ensures forall x :: Among(s[i := v], 0, hi, x) ==> x == v || Among(s, 0, hi, x)
    ensures Among(s[i := v], 0, hi, v)
  {
    forall x | x != s[i] && Among(s, 0, hi, x)
      ensures Among(s[i := v], 0, hi, x)
    {
      var k :| 0 <= k < hi && s[k] == x;
      assert s[i := v][k] == x;
    }
    forall x | Among(s[i := v], 0, hi, x)
      ensures x == v || Among(s, 0, hi, x)
    {
      var k :| 0 <= k < hi && s[i := v][k] == x;
      assert x == v || s[k] == x;
    }
    assert s[i := v][i] == v;
  }

  /** A new buffer given to a plane that has none. */
  lemma BufferGiven(open: map<int, nat>, mapped: map<int, Mapping>, others: set<int>, otherMaps: map<int, Mapping>,
      buffers: seq<int>, addresses: seq<int>, sizes: seq<nat>, i: nat, hi: nat, buffer: int)
    requires Accounts(open, mapped, others, otherMaps, buffers, addresses, sizes, 0, hi)
    requires i < hi && buffers[i] == NO_BUFFER && addresses[i] == MAP_FAILED
    requires 0 <= buffer && buffer !in open
    ensures Accounts(open[buffer := sizes[i]], mapped, others, otherMaps, buffers[i := buffer], addresses, sizes,
                     0, hi)
  {
    AmongUpdated(buffers, i, hi, buffer);
    forall k | 0 <= k < hi && k != i
      ensures buffers[k] != buffer
    {
      assert Among(buffers, 0, hi, buffers[k]);
    }
  }

  /** A new mapping given to a plane that has a buffer. */
  lemma MappingGiven(open: map<int, nat>, mapped: map<int, Mapping>, others: set<int>, otherMaps: map<int, Mapping>,
      buffers: seq<int>, addresses: seq<int>, sizes: seq<nat>, i: nat, hi: nat, address: int)
    requires Accounts(open, mapped, others, otherMaps, buffers, addresses, sizes, 0, hi)
    requires i < hi && buffers[i] != NO_BUFFER && addresses[i] == MAP_FAILED
    requires 0 < address && address !in mapped
    ensures Accounts(open, mapped[address := Mapping(buffers[i], sizes[i])], others, otherMaps,
                     buffers, addresses[i := address], sizes, 0, hi)
  {
    AmongUpdated(addresses, i, hi, address);
    forall k | 0 <= k < hi && k != i
      ensures addresses[k] != address
    {
      assert Among(addresses, 0, hi, addresses[k]);
    }
  }

  /** A buffer that no plane took is from then on nobody's: it counts as somebody else's. */
  lemma BufferLost(open: map<int, nat>, mapped: map<int, Mapping>, others: set<int>, otherMaps: map<int, Mapping>,
      buffers: seq<int>, addresses: seq<int>, sizes: seq<nat>, hi: nat, buffer: int, size: nat)
    requires Accounts(open, mapped, others, otherMaps, buffers, addresses, sizes, 0, hi)
    requires 0 <= buffer && buffer !in open
    ensures Accounts(open[buffer := size], mapped, others + {buffer}, otherMaps, buffers, addresses, sizes, 0, hi)
  {
    forall k | 0 <= k < hi
      ensures buffers[k] != buffer
    {
      assert Among(buffers, 0, hi, buffers[k]);
    }
  }

  /** The planes of a picture end at the first size that is zero. */
  function PlanesOf(sizes: seq<nat>): (n: nat)
    ensures n <= |sizes|
    ensures forall i | 0 <= i < n :: sizes[i] != 0
    ensures n < |sizes| ==> sizes[n] == 0
  {
    if sizes == [] || sizes[0] == 0 then 0 else 1 + PlanesOf(sizes[1..])
  }

  lemma PlanesOfUnique(sizes: seq<nat>, n: nat)
    requires n <= |sizes| && (forall i | 0 <= i < n :: sizes[i] != 0) && (n < |sizes| ==> sizes[n] == 0)
    ensures PlanesOf(sizes) == n
  {
  }

  /** stJpegMem. */
  class JpegMem {
    var ionClient: int
    const ionBuffer: array<int>
    const pcBuf: array<int>
    const iSize: array<nat>

    /** The arrays are separate, and as long as the planes that the encoder passes around. */
    ghost predicate Shape()
    {
      && ionBuffer.Length == pcBuf.Length == iSize.Length
      && ionBuffer != pcBuf
    }

    ghost predicate Owns(ion: Ion, others: set<int>, otherMaps: map<int, Mapping>)
      reads ion, ionBuffer, pcBuf, iSize
    {
      Accounts(ion.buffers, ion.mappings, others, otherMaps, ionBuffer[..], pcBuf[..], iSize[..], 0, ionBuffer.Length)
    }

    ghost predicate Released()
      reads ionBuffer, pcBuf
    {
      && (forall i | 0 <= i < ionBuffer.Length :: ionBuffer[i] == NO_BUFFER)
      && (forall i | 0 <= i < pcBuf.Length :: pcBuf[i] == MAP_FAILED)
    }

    constructor (planes: nat)
      ensures Shape() && ionBuffer.Length == planes && Released() && ionClient == 0
      ensures fresh(ionBuffer) && fresh(pcBuf) && fresh(iSize)
      ensures forall i | 0 <= i < iSize.Length :: iSize[i] == 0
    {
      ionClient := 0;
      ionBuffer := new int[planes];
      pcBuf := new int[planes];
      iSize := new nat[planes];
      new;
      InitJpegMemory();
    }

    /** initJpegMemory: forgets whatever the planes hold. */
    method InitJpegMemory()
      requires Shape()
      modifies this`ionClient, ionBuffer, pcBuf, iSize
      ensures Released() && ionClient == 0 && forall i | 0 <= i < iSize.Length :: iSize[i] == 0
    {
      var i := 0;
      while i < ionBuffer.Length
        invariant 0 <= i <= ionBuffer.Length
        invariant forall k | 0 <= k < i :: pcBuf[k] == MAP_FAILED && ionBuffer[k] == NO_BUFFER && iSize[k] == 0
      {
        pcBuf[i] := MAP_FAILED;
        ionBuffer[i] := NO_BUFFER;
        iSize[i] := 0;
        i := i + 1;
      }
      ionClient := 0;
    }

    /** The body of the loop of freeJpegMemory, for one plane. */
    method FreePlane(ion: Ion, i: nat, ghost others: set<int>, ghost otherMaps: map<int, Mapping>)
      requires Shape() && i < ionBuffer.Length
      requires Accounts(ion.buffers, ion.mappings, others, otherMaps, ionBuffer[..], pcBuf[..], iSize[..],
                        i, ionBuffer.Length)
      modifies ion, ionBuffer, pcBuf, iSize
      ensures Accounts(ion.buffers, ion.mappings, others, otherMaps, ionBuffer[..], pcBuf[..], iSize[..],
                       i + 1, ionBuffer.Length)
      ensures ionBuffer[..] == old(ionBuffer[..])[i := NO_BUFFER] && pcBuf[..] == old(pcBuf[..])[i := MAP_FAILED]
      ensures iSize[..] == old(iSize[..])[i := 0] && ion.answers == old(ion.answers)
    {
      hide Accounts;
      OneFreed(ion.buffers, ion.mappings, others, otherMaps, ionBuffer[..], pcBuf[..], iSize[..], i, ionBuffer.Length);
      if ionBuffer[i] != NO_BUFFER {
        if pcBuf[i] != MAP_FAILED {
          ion.Unmap(pcBuf[i], iSize[i]);
        }
        ion.Free(ionBuffer[i]);
      }
      ionBuffer[i] := NO_BUFFER;
      pcBuf[i] := MAP_FAILED;
      iSize[i] := 0;
    }

    /** freeJpegMemory: unmaps and frees what the planes hold, each once; without a client it does nothing. */
    method FreeJpegMemory(ion: Ion, ghost others: set<int>, ghost otherMaps: map<int, Mapping>)
      requires Shape() && Owns(ion, others, otherMaps)
      modifies ion, ionBuffer, pcBuf, iSize
      ensures Owns(ion, others, otherMaps)
      ensures ionClient == 0 ==>
                && ionBuffer[..] == old(ionBuffer[..]) && pcBuf[..] == old(pcBuf[..]) && iSize[..] == old(iSize[..])
                && ion.buffers == old(ion.buffers) && ion.mappings == old(ion.mappings)
      ensures ionClient != 0 ==> Released() && forall i | 0 <= i < iSize.Length :: iSize[i] == 0
      ensures ion.answers == old(ion.answers)
    {
      if ionClient == 0 {
        return;
      }
      hide Accounts;
      var i := 0;
      while i < ionBuffer.Length
        invariant 0 <= i <= ionBuffer.Length
        invariant Accounts(ion.buffers, ion.mappings, others, otherMaps, ionBuffer[..], pcBuf[..], iSize[..],
                           i, ionBuffer.Length)
        invariant ion.answers == old(ion.answers)
        invariant forall k | 0 <= k < i ::
                    ionBuffer[..][k] == NO_BUFFER && pcBuf[..][k] == MAP_FAILED && iSize[..][k] == 0
      {
        FreePlane(ion, i, others, otherMaps);
        i := i + 1;
      }
      NoneHeld(ion.buffers, ion.mappings, others, otherMaps, ionBuffer[..], pcBuf[..], iSize[..], i);
    }

    /** The first `n` planes hold a buffer and a mapping, the others neither. */
    ghost predicate Held(n: nat)
      reads ionBuffer, pcBuf
    {
      && (forall i | 0 <= i < n && i < ionBuffer.Length && i < pcBuf.Length ::
            ionBuffer[i] != NO_BUFFER && pcBuf[i] != MAP_FAILED)
      && (forall i | n <= i < ionBuffer.Length :: ionBuffer[i] == NO_BUFFER)
      && (forall i | n <= i < pcBuf.Length :: pcBuf[i] == MAP_FAILED)
    }

    /**
     * allocJpegMemory, on released planes: every plane before the first size of zero, or none at all. When ION
     * answers 0, and only then, a buffer is lost: number 0 stays open, and no plane holds it.
     */
    method AllocJpegMemory(ion: Ion, ghost others: set<int>, ghost otherMaps: map<int, Mapping>) returns (ret: Error)
      requires Shape() && Released() && Owns(ion, others, otherMaps)
      modifies ion, ionBuffer, pcBuf, iSize
      ensures ret == BUFFR_IS_NULL <==> ionClient == 0
      ensures ret != MEM_ALLOC_FAIL ==> iSize[..] == old(iSize[..])
      ensures ret == BUFFR_IS_NULL ==>
                Released() && ion.buffers == old(ion.buffers) && ion.mappings == old(ion.mappings)
      ensures ret == NONE ==> Held(PlanesOf(iSize[..]))
      ensures ret == MEM_ALLOC_FAIL ==> Released() && forall i | 0 <= i < iSize.Length :: iSize[i] == 0
      ensures |old(ion.answers)| <= |ion.answers| && ion.answers[..|old(ion.answers)|] == old(ion.answers)
      ensures |ion.answers| <= |old(ion.answers)| + ionBuffer.Length
      ensures ionClient != 0 && 0 < old(PlanesOf(iSize[..])) ==>
                && |old(ion.answers)| < |ion.answers|
                && ion.answers[|old(ion.answers)|] == Grant(old(ion.script), old(ion.buffers))
      ensures Owns(ion, WithZero(others, ion.answers[|old(ion.answers)|..]), otherMaps)
      ensures 0 in ion.answers[|old(ion.answers)|..] ==>
                ret == MEM_ALLOC_FAIL && 0 !in old(ion.buffers) && 0 in ion.buffers
    {
      hide Accounts, PlanesOf;
      if ionClient == 0 {
        return BUFFR_IS_NULL;
      }
      ghost var sizes, n := iSize[..], |ion.answers|;
      var i := 0;
      while i < ionBuffer.Length
        invariant 0 <= i <= ionBuffer.Length && Held(i) && iSize[..] == sizes
        invariant Owns(ion, others, otherMaps)
        invariant forall k | 0 <= k < i :: sizes[k] != 0
        invariant 0 in old(ion.buffers) ==> 0 in ion.buffers
        invariant |ion.answers| == n + i && ion.answers[..n] == old(ion.answers) && 0 !in ion.answers[n..]
        invariant if i == 0 then ion.script == old(ion.script) && ion.buffers == old(ion.buffers)
                  else ion.answers[n] == Grant(old(ion.script), old(ion.buffers))
      {
        if iSize[i] == 0 {
          break;
        }
        ghost var answers := ion.answers;
        ret := AllocPlane(ion, i, others, otherMaps);
        OneMoreAnswer(answers, ion.answers, n);
        if ret != NONE {
          return;
        }
        i := i + 1;
      }
      PlanesOfUnique(sizes, i);
      ret := NONE;
    }

    /** The body of the loop of allocJpegMemory, for one plane: ION is asked once. */
    method AllocPlane(ion: Ion, i: nat, ghost others: set<int>, ghost otherMaps: map<int, Mapping>) returns (ret: Error)
      requires Shape() && ionClient != 0 && i < ionBuffer.Length && Held(i) && Owns(ion, others, otherMaps)
      modifies ion, ionBuffer, pcBuf, iSize
      ensures ret == NONE || ret == MEM_ALLOC_FAIL
      ensures ret == NONE ==> Held(i + 1) && iSize[..] == old(iSize[..])
      ensures ret == NONE ==> (0 in old(ion.buffers) ==> 0 in ion.buffers)
      ensures ret == MEM_ALLOC_FAIL ==> Released() && forall k | 0 <= k < iSize.Length :: iSize[k] == 0
      ensures ion.answers == old(ion.answers) + [Grant(old(ion.script), old(ion.buffers))]
      ensures Owns(ion, WithZero(others, [Grant(old(ion.script), old(ion.buffers))]), otherMaps)
      ensures Grant(old(ion.script), old(ion.buffers)) == 0 ==>
                ret == MEM_ALLOC_FAIL && 0 !in old(ion.buffers) && 0 in ion.buffers
    {
      hide Accounts, Grant;
      ghost var n, open, mapped := ionBuffer.Length, ion.buffers, ion.mappings;
      ghost var buffers, addresses, sizes := ionBuffer[..], pcBuf[..], iSize[..];
      ghost var answer := Grant(ion.script, ion.buffers);
      ionBuffer[i] := ion.Alloc(iSize[i]);
      if ionBuffer[i] == -1 || ionBuffer[i] == 0 {
        if ionBuffer[i] == 0 {
          BufferLost(open, mapped, others, otherMaps, buffers, addresses, sizes, n, 0, iSize[i]);
        }
        ionBuffer[i] := -1;
        assert ionBuffer[..] == buffers;
        FreeJpegMemory(ion, WithZero(others, [answer]), otherMaps);
        OthersOpen(ion, WithZero(others, [answer]), otherMaps);
        return MEM_ALLOC_FAIL;
      }
      BufferGiven(open, mapped, others, otherMaps, buffers, addresses, sizes, i, n, ionBuffer[i]);
      buffers := buffers[i := ionBuffer[i]];
      assert ionBuffer[..] == buffers;
      BufferOpen(ion.buffers, mapped, others, otherMaps, buffers, addresses, sizes, i, n);
      pcBuf[i] := ion.Map(ionBuffer[i], iSize[i]);
      if pcBuf[i] == MAP_FAILED || pcBuf[i] == NULL {
        pcBuf[i] := MAP_FAILED;
        assert pcBuf[..] == addresses;
        FreeJpegMemory(ion, others, otherMaps);
        return MEM_ALLOC_FAIL;
      }
      MappingGiven(ion.buffers, mapped, others, otherMaps, buffers, addresses, sizes, i, n, pcBuf[i]);
      assert pcBuf[..] == addresses[i := pcBuf[i]];
      ret := NONE;
    }

    lemma OthersOpen(ion: Ion, others: set<int>, otherMaps: map<int, Mapping>)
      requires Owns(ion, others, otherMaps)
      ensures forall b | b in others :: b in ion.buffers
    {
    }

    /** What is open is what somebody else has open. */
    static ghost predicate Clean(ion: Ion, others: set<int>, otherMaps: map<int, Mapping>)
      reads ion
    {
      && (forall b :: b in ion.buffers <==> b in others)
      && (forall a :: a in ion.mappings <==> a in otherMaps)
      && (forall a | a in otherMaps && a in ion.mappings :: ion.mappings[a] == otherMaps[a])
    }

    lemma ReleasedIsClean(ion: Ion, others: set<int>, otherMaps: map<int, Mapping>)
      requires Shape() && Released()
      ensures Owns(ion, others, otherMaps) <==> Clean(ion, others, otherMaps)
    {
    }

    /**
     * Any sequence of calls, in the order the encoder keeps: planes are initialised, given a client, sized
     * and allocated only while they hold nothing. Once they are freed in the end, all that is open is what
     * was open before, and the buffer numbered 0 exactly when ION has answered 0.
     */
    method Session(ion: Ion, calls: seq<Call>, ghost others: set<int>, ghost otherMaps: map<int, Mapping>)
      requires Shape() && Released() && Clean(ion, others, otherMaps)
      modifies this`ionClient, ion, ionBuffer, pcBuf, iSize
      ensures |old(ion.answers)| <= |ion.answers| && ion.answers[..|old(ion.answers)|] == old(ion.answers)
      ensures Released() && Clean(ion, WithZero(others, ion.answers[|old(ion.answers)|..]), otherMaps)
    {
      hide Accounts, PlanesOf, Owns, Held, Clean, WithZero, Grant;
      ghost var n, mine := |ion.answers|, others;
      NoAnswers(others, ion.answers, n);
      var held := false;
      var i := 0;
      while i < |calls|
        invariant 0 <= i <= |calls| && n <= |ion.answers| && ion.answers[..n] == old(ion.answers)
        invariant mine == WithZero(others, ion.answers[n..])
        invariant if held then ionClient != 0 && Owns(ion, mine, otherMaps)
                  else Released() && Clean(ion, mine, otherMaps)
      {
        if !held {
          ReleasedIsClean(ion, mine, otherMaps);
        }
        match calls[i] {
          case Free =>
            FreeJpegMemory(ion, mine, otherMaps);
            held := held && ionClient == 0;
          case Alloc =>
            if !held {
              ghost var answers := ion.answers;
              var ret := AllocJpegMemory(ion, mine, otherMaps);
              MoreAnswers(others, answers, ion.answers, n);
              mine := WithZero(others, ion.answers[n..]);
              held := ret == NONE;
            }
          case Init =>
            if !held {
              InitJpegMemory();
            }
          case Client(client) =>
            if !held {
              ionClient := client;
            }
          case Size(plane, size) =>
            if !held && plane < iSize.Length {
              iSize[plane] := size;
            }
        }
        if !held {
          ReleasedIsClean(ion, mine, otherMaps);
        }
        i := i + 1;
      }
      if held {
        FreeJpegMemory(ion, mine, otherMaps);
        ReleasedIsClean(ion, mine, otherMaps);
      }
    }
  }

  lemma OneMoreAnswer(answers: seq<int>, answers': seq<int>, n: nat)
    requires n <= |answers| && |answers'| == |answers| + 1 && answers'[..|answers|] == answers
    ensures answers'[..n] == answers[..n] && answers'[n..] == answers[n..] + [answers'[|answers|]]
  {
  }

  lemma NoAnswers(others: set<int>, answers: seq<int>, n: nat)
    requires n == |answers|
    ensures WithZero(others, answers[n..]) == others
  {
  }

  lemma MoreAnswers(others: set<int>, answers: seq<int>, answers': seq<int>, n: nat)
    requires n <= |answers| <= |answers'| && answers'[..|answers|] == answers
    ensures answers'[..n] == answers[..n]
    ensures WithZero(WithZero(others, answers[n..]), answers'[|answers|..]) == WithZero(others, answers'[n..])
  {
    assert answers'[n..] == answers[n..] + answers'[|answers|..];
  }

  /** The buffer numbered 0 is lost: one plane, an ION of our own that is asked once and answers 0, and the buffer
      is open although the planes are released. */
  method ZeroIsLost() returns (mem: JpegMem, ion: Ion)
    ensures fresh(mem) && fresh(ion) && ion.answers == [0]
    ensures mem.Released() && 0 in ion.buffers
  {
    mem := new JpegMem(1);
    ion := new Ion([0]);
    mem.ionClient := 1;
    mem.iSize[0] := 1;
    mem.ReleasedIsClean(ion, {}, map[]);
    var ret := mem.AllocJpegMemory(ion, {}, map[]);
    mem.FreeJpegMemory(ion, {0}, map[]);
    mem.OthersOpen(ion, {0}, map[]);
  }

  datatype Call = Init | Client(client: int) | Size(plane: nat, size: nat) | Alloc | Free

  lemma BufferOpen(open: map<int, nat>, mapped: map<int, Mapping>, others: set<int>, otherMaps: map<int, Mapping>,
      buffers: seq<int>, addresses: seq<int>, sizes: seq<nat>, i: nat, hi: nat)
    requires Accounts(open, mapped, others, otherMaps, buffers, addresses, sizes, 0, hi)
    requires i < hi && buffers[i] != NO_BUFFER
    ensures buffers[i] in open
  {
    assert Among(buffers, 0, hi, buffers[i]);
  }
}
