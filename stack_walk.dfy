/** `GetCallStackFunc`: the frame-pointer walk. Starting from `rbp`, each step reads
    the return address at `[rbp + 8]` and the saved frame pointer at `[rbp]`, records
    a frame and follows the saved pointer, stopping on a failed read, a zero return
    address, a next frame pointer that is zero, below `rsp` or not above the current
    one, or after `maxFrames` frames. */
module StackWalk {
  import opened Prelude
  import Bridge

  /** `GetCallStack(int maxFrames = 32)`. */
  const DEFAULT_MAX_FRAMES: int := 32

  /** `CallStackFrameInfo`. */
  datatype Frame = Frame(frameAddress: U64, returnAddress: U64, frameSize: U64)

  /** The `nuint` word at `[rbp + 8]` (the addition wraps). */
  function ReturnAddressAt(mem: Memory, rbp: U64): Option<U64> {
    ReadU64(mem, Wrap(rbp + 8))
  }

  /** The saved frame pointer at `[rbp]`. */
  function SavedRbpAt(mem: Memory, rbp: U64): Option<U64> {
    ReadU64(mem, rbp)
  }

  /** Both reads of a step succeed and the return address is not zero: the step
      records a frame. */
  predicate FrameReadable(mem: Memory, rbp: U64) {
    ReturnAddressAt(mem, rbp).Some? && ReturnAddressAt(mem, rbp).value != 0 &&
    SavedRbpAt(mem, rbp).Some?
  }

  /** The validation of the next frame pointer that ends the walk. */
  predicate StopsAt(rsp: U64, previousRbp: U64, currentRbp: U64) {
    currentRbp == 0 || currentRbp < rsp || currentRbp <= previousRbp
  }

  /** The `frameSize` expression of one step. */
  function FrameSize(previousRbp: U64, currentRbp: U64): U64 {
    if previousRbp > 0 && currentRbp > previousRbp then 0
    else if previousRbp > 0 then Wrap(previousRbp as int - currentRbp as int)
    else 0
  }

  /** The loop's iteration count: `maxFrames` when positive, else none. */
  function Budget(maxFrames: int): nat {
    if maxFrames > 0 then maxFrames else 0
  }

  /** The frames at most `budget` more steps collect from `currentRbp`, the previous
      frame pointer being `previousRbp`. */
  function WalkFrom(mem: Memory, rsp: U64, currentRbp: U64, previousRbp: U64, budget: nat): seq<Frame>
    decreases budget
  {
    if budget == 0 || !FrameReadable(mem, currentRbp) then []
    else
      var frame := Frame(currentRbp, ReturnAddressAt(mem, currentRbp).value, FrameSize(previousRbp, currentRbp));
      var nextRbp := SavedRbpAt(mem, currentRbp).value;
      if StopsAt(rsp, currentRbp, nextRbp) then [frame]
      else [frame] + WalkFrom(mem, rsp, nextRbp, currentRbp, budget - 1)
  }

  /** The list `GetCallStackFunc(maxFrames)` returns for the registers and memory. */
  function CallStack(mem: Memory, rbp: U64, rsp: U64, maxFrames: int): seq<Frame> {
    if rbp == 0 || rbp < rsp then [] else WalkFrom(mem, rsp, rbp, 0, Budget(maxFrames))
  }

  /** One `DbgMemRead(va, addrBuffer, 8)` followed by `BitConverter.ToUInt64`; `None`
      when the read reports failure. */
  method ReadWord(mem: Memory, va: U64, addrBuffer: array<Byte>) returns (word: Option<U64>)
    requires addrBuffer.Length == 8
    modifies addrBuffer
    ensures word == ReadU64(mem, va)
  {
    var ok := Bridge.DbgMemRead(mem, va, addrBuffer, 8);
    if !ok {
      return None;
    }
    assert addrBuffer[..] == addrBuffer[..8];
    word := Some(ToU64(addrBuffer[..]));
  }

  /** One unfolding of the walk: no frame when the step cannot record one; otherwise
      the frame, followed by the rest of the walk unless the next pointer is
      rejected. */
  lemma WalkStep(mem: Memory, rsp: U64, currentRbp: U64, previousRbp: U64, budget: nat)
    requires budget > 0
    ensures !FrameReadable(mem, currentRbp) ==> WalkFrom(mem, rsp, currentRbp, previousRbp, budget) == []
    ensures FrameReadable(mem, currentRbp) ==>
              var frame := Frame(currentRbp, ReturnAddressAt(mem, currentRbp).value, FrameSize(previousRbp, currentRbp));
              var nextRbp := SavedRbpAt(mem, currentRbp).value;
              WalkFrom(mem, rsp, currentRbp, previousRbp, budget) ==
                if StopsAt(rsp, currentRbp, nextRbp) then [frame]
                else [frame] + WalkFrom(mem, rsp, nextRbp, currentRbp, budget - 1)
  {
  }

  /** The reads of one step: the return address at `[rbp + 8]`, which must not be
      zero, then the saved frame pointer at `[rbp]`; `None` where the loop breaks. */
  method ReadFrameWords(mem: Memory, currentRbp: U64, addrBuffer: array<Byte>) returns (words: Option<(U64, U64)>)
    requires addrBuffer.Length == 8
    modifies addrBuffer
    ensures words.Some? <==> FrameReadable(mem, currentRbp)
    ensures words.Some? ==> words.value == (ReturnAddressAt(mem, currentRbp).value, SavedRbpAt(mem, currentRbp).value)
  {
    var returnWord := ReadWord(mem, Wrap(currentRbp + 8), addrBuffer);
    if returnWord.None? {
      return None;
    }
    var returnAddress := returnWord.value;
    if returnAddress == 0 {
      return None;
    }
    var savedWord := ReadWord(mem, currentRbp, addrBuffer);
    if savedWord.None? {
      return None;
    }
    return Some((returnAddress, savedWord.value));
  }

  /** `GetCallStackFunc`. The registers are the values `DbgValFromString` reports;
      the reads go through the byte-array `DbgMemRead` overload with an 8-byte buffer. */
  method GetCallStackFunc(mem: Memory, rbp: U64, rsp: U64, maxFrames: int) returns (callstack: seq<Frame>)
    ensures callstack == CallStack(mem, rbp, rsp, maxFrames)
  {
    callstack := [];
    var addrBuffer := new Byte[8];
    var currentRbp: U64 := rbp;
    var previousRbp: U64 := 0;
    if rbp == 0 || rbp < rsp {
      return;
    }
    ghost var whole := CallStack(mem, rbp, rsp, maxFrames);
    ghost var budget: nat := Budget(maxFrames);
    var i := 0;
    while i < maxFrames
      invariant budget == Budget(maxFrames - i)
      invariant addrBuffer.Length == 8
      invariant callstack + WalkFrom(mem, rsp, currentRbp, previousRbp, budget) == whole
      decreases budget
    {
      WalkAdvance(mem, rsp, currentRbp, previousRbp, budget, callstack, whole);
      var words := ReadFrameWords(mem, currentRbp, addrBuffer);
      if words.None? {
        break;
      }
      var (returnAddress, nextRbp) := words.value;
      var frameSize := FrameSize(previousRbp, currentRbp);
      var frame := Frame(currentRbp, returnAddress, frameSize);
      callstack := callstack + [frame];
      previousRbp := currentRbp;
      currentRbp := nextRbp;
      if currentRbp == 0 || currentRbp < rsp || currentRbp <= previousRbp {
        break;
      }
      i := i + 1;
      budget := budget - 1;
    }
  }

  /** The loop invariant of `GetCallStackFunc` across one step: the walk ends here
      when no frame can be recorded or the next pointer is rejected, and otherwise
      the recorded frame joins the prefix. */
  lemma WalkAdvance(mem: Memory, rsp: U64, currentRbp: U64, previousRbp: U64, budget: nat,
                    prefix: seq<Frame>, whole: seq<Frame>)
    requires budget > 0
    requires prefix + WalkFrom(mem, rsp, currentRbp, previousRbp, budget) == whole
    ensures !FrameReadable(mem, currentRbp) ==> prefix == whole
    ensures FrameReadable(mem, currentRbp) ==>
              var next := SavedRbpAt(mem, currentRbp).value;
              var extended := prefix + [Frame(currentRbp, ReturnAddressAt(mem, currentRbp).value, FrameSize(previousRbp, currentRbp))];
              if StopsAt(rsp, currentRbp, next) then extended == whole
              else extended + WalkFrom(mem, rsp, next, currentRbp, budget - 1) == whole
  {
    WalkStep(mem, rsp, currentRbp, previousRbp, budget);
    if FrameReadable(mem, currentRbp) {
      var frame := Frame(currentRbp, ReturnAddressAt(mem, currentRbp).value, FrameSize(previousRbp, currentRbp));
      var rest := WalkFrom(mem, rsp, SavedRbpAt(mem, currentRbp).value, currentRbp, budget - 1);
      assert prefix + ([frame] + rest) == (prefix + [frame]) + rest;
    }
  }

  // ---- properties ----

  /** A frame pointer the walk may continue from. */
  predicate ValidStart(rsp: U64, currentRbp: U64, previousRbp: U64) {
    currentRbp != 0 && currentRbp >= rsp && (previousRbp == 0 || currentRbp > previousRbp)
  }

  /** The shape of a walk: within the budget, starting at the given frame pointer,
      frame addresses strictly increasing and never below it. */
  lemma {:induction false} WalkOrder(mem: Memory, rsp: U64, currentRbp: U64, previousRbp: U64, budget: nat)
    requires ValidStart(rsp, currentRbp, previousRbp)
    ensures var w := WalkFrom(mem, rsp, currentRbp, previousRbp, budget);
            |w| <= budget &&
            (|w| > 0 ==> w[0].frameAddress == currentRbp) &&
            (forall i :: 0 <= i < |w| ==> currentRbp <= w[i].frameAddress) &&
            (forall i, j :: 0 <= i < j < |w| ==> w[i].frameAddress < w[j].frameAddress)
    decreases budget
  {
    if budget > 0 && FrameReadable(mem, currentRbp) {
      var nextRbp := SavedRbpAt(mem, currentRbp).value;
      if !StopsAt(rsp, currentRbp, nextRbp) {
        WalkOrder(mem, rsp, nextRbp, currentRbp, budget - 1);
        var rest := WalkFrom(mem, rsp, nextRbp, currentRbp, budget - 1);
        var w := WalkFrom(mem, rsp, currentRbp, previousRbp, budget);
        forall i, j | 0 <= i < j < |w|
          ensures w[i].frameAddress < w[j].frameAddress
        {
          assert w[j] == rest[j - 1];
          if i > 0 {
            assert w[i] == rest[i - 1];
          }
        }
        forall i | 0 <= i < |w|
          ensures currentRbp <= w[i].frameAddress
        {
          if i > 0 {
            assert w[i] == rest[i - 1];
          }
        }
      }
    }
  }

  /** Every frame of a walk is one whose two reads succeeded: its return address is
      the non-zero word at `[frame + 8]`, each next frame is the word saved at the
      one before, and its size is 0. */
  lemma {:induction false} WalkContents(mem: Memory, rsp: U64, currentRbp: U64, previousRbp: U64, budget: nat)
    requires ValidStart(rsp, currentRbp, previousRbp)
    ensures var w := WalkFrom(mem, rsp, currentRbp, previousRbp, budget);
            (forall i :: 0 <= i < |w| ==>
               FrameReadable(mem, w[i].frameAddress) &&
               ReturnAddressAt(mem, w[i].frameAddress) == Some(w[i].returnAddress) &&
               w[i].returnAddress != 0 && w[i].frameSize == 0) &&
            (forall i :: 0 <= i < |w| - 1 ==> SavedRbpAt(mem, w[i].frameAddress) == Some(w[i + 1].frameAddress))
    decreases budget
  {
    if budget > 0 && FrameReadable(mem, currentRbp) {
      var nextRbp := SavedRbpAt(mem, currentRbp).value;
      var w := WalkFrom(mem, rsp, currentRbp, previousRbp, budget);
      assert w[0].frameSize == 0;
      if !StopsAt(rsp, currentRbp, nextRbp) {
        WalkContents(mem, rsp, nextRbp, currentRbp, budget - 1);
        WalkOrder(mem, rsp, nextRbp, currentRbp, budget - 1);
        var rest := WalkFrom(mem, rsp, nextRbp, currentRbp, budget - 1);
        forall i | 1 <= i < |w|
          ensures w[i] == rest[i - 1]
        {
        }
      }
    }
  }

  /** Why a walk ends early: with budget left it stops only where the next step
      cannot record a frame, or where the next frame pointer fails validation. */
  lemma {:induction false} WalkStops(mem: Memory, rsp: U64, currentRbp: U64, previousRbp: U64, budget: nat)
    requires ValidStart(rsp, currentRbp, previousRbp)
    ensures var w := WalkFrom(mem, rsp, currentRbp, previousRbp, budget);
            |w| < budget ==>
              (|w| == 0 ==> !FrameReadable(mem, currentRbp)) &&
              (|w| > 0 ==> FrameReadable(mem, w[|w| - 1].frameAddress) &&
                           var last := w[|w| - 1].frameAddress;
                           var nextRbp := SavedRbpAt(mem, last).value;
                           StopsAt(rsp, last, nextRbp) || !FrameReadable(mem, nextRbp))
    decreases budget
  {
    if budget > 0 && FrameReadable(mem, currentRbp) {
      var nextRbp := SavedRbpAt(mem, currentRbp).value;
      if !StopsAt(rsp, currentRbp, nextRbp) {
        WalkStops(mem, rsp, nextRbp, currentRbp, budget - 1);
        var w := WalkFrom(mem, rsp, currentRbp, previousRbp, budget);
        var rest := WalkFrom(mem, rsp, nextRbp, currentRbp, budget - 1);
        if |rest| > 0 {
          assert w[|w| - 1] == rest[|rest| - 1];
        }
      }
    }
  }

  /** A larger budget only adds frames: the frames collected are never dropped. */
  lemma {:induction false} WalkExtends(mem: Memory, rsp: U64, currentRbp: U64, previousRbp: U64, budget: nat)
    ensures var w := WalkFrom(mem, rsp, currentRbp, previousRbp, budget);
            var w' := WalkFrom(mem, rsp, currentRbp, previousRbp, budget + 1);
            |w| <= |w'| && w'[..|w|] == w
    decreases budget
  {
    if budget > 0 && FrameReadable(mem, currentRbp) {
      var nextRbp := SavedRbpAt(mem, currentRbp).value;
      if !StopsAt(rsp, currentRbp, nextRbp) {
        WalkExtends(mem, rsp, nextRbp, currentRbp, budget - 1);
      }
    }
  }

  /** What `GetCallStackFunc` promises: nothing when `rbp` is zero or below `rsp`; at
      most `maxFrames` frames; the first at `rbp`; frame addresses strictly increasing
      and at least `rsp`; every return address non-zero and read from `[frame + 8]`;
      each frame the one saved at the frame before; every frame size 0. */
  lemma CallStackShape(mem: Memory, rbp: U64, rsp: U64, maxFrames: int)
    ensures var cs := CallStack(mem, rbp, rsp, maxFrames);
            (rbp == 0 || rbp < rsp ==> cs == []) &&
            |cs| <= Budget(maxFrames) &&
            (|cs| > 0 ==> cs[0].frameAddress == rbp) &&
            (forall i, j :: 0 <= i < j < |cs| ==> cs[i].frameAddress < cs[j].frameAddress) &&
            (forall i :: 0 <= i < |cs| ==>
               rsp <= cs[i].frameAddress && cs[i].returnAddress != 0 &&
               ReturnAddressAt(mem, cs[i].frameAddress) == Some(cs[i].returnAddress) &&
               cs[i].frameSize == 0) &&
            (forall i :: 0 <= i < |cs| - 1 ==> SavedRbpAt(mem, cs[i].frameAddress) == Some(cs[i + 1].frameAddress))
  {
    if !(rbp == 0 || rbp < rsp) {
      WalkOrder(mem, rsp, rbp, 0, Budget(maxFrames));
      WalkContents(mem, rsp, rbp, 0, Budget(maxFrames));
    }
  }

  /** A walk with frames to spare ended for a reason: the first step could not record
      a frame, or the step after the last frame could not, or that frame's saved
      pointer failed validation. */
  lemma CallStackStops(mem: Memory, rbp: U64, rsp: U64, maxFrames: int)
    requires rbp != 0 && rbp >= rsp
    ensures var cs := CallStack(mem, rbp, rsp, maxFrames);
            |cs| < Budget(maxFrames) ==>
              (|cs| == 0 ==> !FrameReadable(mem, rbp)) &&
              (|cs| > 0 ==> FrameReadable(mem, cs[|cs| - 1].frameAddress) &&
                            var last := cs[|cs| - 1].frameAddress;
                            var nextRbp := SavedRbpAt(mem, last).value;
                            StopsAt(rsp, last, nextRbp) || !FrameReadable(mem, nextRbp))
  {
    WalkStops(mem, rsp, rbp, 0, Budget(maxFrames));
  }

  /** Raising `maxFrames` by one keeps every frame a smaller limit returned. */
  lemma CallStackExtends(mem: Memory, rbp: U64, rsp: U64, maxFrames: nat)
    ensures var cs := CallStack(mem, rbp, rsp, maxFrames);
            var cs' := CallStack(mem, rbp, rsp, maxFrames + 1);
            |cs| <= |cs'| && cs'[..|cs|] == cs
  {
    WalkExtends(mem, rsp, rbp, 0, maxFrames);
  }
}
