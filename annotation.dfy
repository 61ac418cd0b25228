/** The per-frame annotation of `GetCallStack`: one `DbgAddrInfoGet` query for module,
    label and comment at the frame's return address, the auto-comment mark removed
    from the comment, and a module-only query when the combined one fails. */
module Annotation {
  import opened Prelude
  import opened Engine
  import opened Bridge
  import StackWalk

  /** The `'\x01'` the engine puts before automatic comments. */
  const AUTO_COMMENT_MARK: char := 1 as char

  const LOOKUP_FAILED: string := "Lookup Failed"

  const ALL_FIELDS: AddrInfoFlags := AddrInfoFlags(true, true, true)
  const MODULE_ONLY: AddrInfoFlags := AddrInfoFlags(true, false, false)

  /** The three texts printed for one frame. */
  datatype FrameAnnotation = FrameAnnotation(moduleText: string, labelText: string, commentText: string)

  /** `Marshal.PtrToStringAnsi` on one of the caller's buffers: the bytes before the
      first NUL. The pointer is never null here, so the `?? "N/A"` alternatives never
      apply. */
  function AnsiText(buf: seq<Byte>): string {
    DecodeBounded(buf, |buf|)
  }

  /** The comment shown: without a leading auto-comment mark. */
  function StripAutoComment(retrieved: string): (shown: string)
    ensures |retrieved| > 0 && retrieved[0] == AUTO_COMMENT_MARK ==> [AUTO_COMMENT_MARK] + shown == retrieved
    ensures !(|retrieved| > 0 && retrieved[0] == AUTO_COMMENT_MARK) ==> shown == retrieved
  {
    if retrieved == "" then ""
    else if retrieved[0] == AUTO_COMMENT_MARK then (if |retrieved| > 1 then retrieved[1..] else "")
    else retrieved
  }

  /** What the block computes for the return address `addr`. */
  function ResolveAnnotation(s: Snapshot, addr: U64): FrameAnnotation {
    match AddrInfoGet(s, addr, ALL_FIELDS)
    case Some(bufs) =>
      FrameAnnotation(AnsiText(bufs.moduleBuffer), AnsiText(bufs.labelBuffer), StripAutoComment(AnsiText(bufs.commentBuffer)))
    case None =>
      match AddrInfoGet(s, addr, MODULE_ONLY)
      case Some(bufs) => FrameAnnotation(AnsiText(bufs.moduleBuffer), "", "")
      case None => FrameAnnotation(LOOKUP_FAILED, "", "")
  }

  /** The block itself, with its locals: "N/A", "N/A" and "" until a query answers. */
  method ResolveFrameAnnotation(s: Snapshot, addr: U64) returns (moduleStr: string, labelStr: string, commentStr: string)
    ensures FrameAnnotation(moduleStr, labelStr, commentStr) == ResolveAnnotation(s, addr)
  {
    moduleStr := "N/A";
    labelStr := "N/A";
    commentStr := "";
    var addrInfo := AddrInfoGet(s, addr, ALL_FIELDS);
    if addrInfo.Some? {
      moduleStr := AnsiText(addrInfo.value.moduleBuffer);
      labelStr := AnsiText(addrInfo.value.labelBuffer);
      var retrievedComment := AnsiText(addrInfo.value.commentBuffer);
      if retrievedComment != "" {
        if |retrievedComment| > 0 && retrievedComment[0] == AUTO_COMMENT_MARK {
          commentStr := if |retrievedComment| > 1 then retrievedComment[1..] else "";
        } else {
          commentStr := retrievedComment;
        }
      }
    } else {
      var modInfoOnly := AddrInfoGet(s, addr, MODULE_ONLY);
      if modInfoOnly.Some? {
        moduleStr := AnsiText(modInfoOnly.value.moduleBuffer);
      } else {
        moduleStr := LOOKUP_FAILED;
      }
      labelStr := "";
      commentStr := "";
    }
  }

  /** One row of the report: the frame and its annotation. */
  datatype AnnotatedFrame = AnnotatedFrame(frame: StackWalk.Frame, annotation: FrameAnnotation)

  /** `GetCallStack`'s outcome before formatting: the "could not be retrieved" message
      for an empty walk, otherwise one row per frame. */
  datatype CallStackReport = NotRetrieved | Rows(rows: seq<AnnotatedFrame>)

  /** `GetCallStack(maxFrames)`: the walk, then the annotation of each frame in order;
      `maxFrames` defaults to 32. */
  method GetCallStack(s: Snapshot, rbp: U64, rsp: U64, maxFrames: int := StackWalk.DEFAULT_MAX_FRAMES)
    returns (report: CallStackReport)
    ensures var frames := StackWalk.CallStack(s.memory, rbp, rsp, maxFrames);
            (report.NotRetrieved? <==> frames == []) &&
            (report.Rows? ==>
               |report.rows| == |frames| &&
               forall i :: 0 <= i < |frames| ==>
                 report.rows[i] == AnnotatedFrame(frames[i], ResolveAnnotation(s, frames[i].returnAddress)))
  {
    var callstackFrames := StackWalk.GetCallStackFunc(s.memory, rbp, rsp, maxFrames);
    if |callstackFrames| == 0 {
      return NotRetrieved;
    }
    var rows: seq<AnnotatedFrame> := [];
    var i := 0;
    while i < |callstackFrames|
      invariant 0 <= i <= |callstackFrames|
      invariant |rows| == i
      invariant forall j :: 0 <= j < i ==>
                  rows[j] == AnnotatedFrame(callstackFrames[j], ResolveAnnotation(s, callstackFrames[j].returnAddress))
    {
      var frame := callstackFrames[i];
      var moduleStr, labelStr, commentStr := ResolveFrameAnnotation(s, frame.returnAddress);
      rows := rows + [AnnotatedFrame(frame, FrameAnnotation(moduleStr, labelStr, commentStr))];
      i := i + 1;
    }
    report := Rows(rows);
  }

  // ---- properties ----

  /** A text as a buffer of `cap` bytes gives it back: whole, or cut to `cap - 1`. */
  function Fitted(t: string, cap: nat): string
    requires cap >= 1
  {
    if |t| < cap then t else t[..cap - 1]
  }

  lemma {:induction false} ZerosAreEmpty(n: nat)
    requires n >= 1
    ensures AnsiText(Zeros(n)) == ""
  {
    assert Zeros(n)[0] == 0;
  }

  lemma {:induction false} FilledText(t: string, cap: nat)
    requires cap >= 1 && IsBufferText(t)
    ensures AnsiText(FillBuffer(t, cap)) == Fitted(t, cap)
  {
    FillThenDecode(t, cap);
    assert t[..|t|] == t;
  }

  /** When the combined query succeeds, the frame shows the module name, label and
      comment the engine knows there (each as its buffer holds it, empty when
      unknown), the comment without its auto-comment mark. */
  lemma {:induction false} AnnotationWhenKnown(s: Snapshot, addr: U64)
    requires s.addrInfoOk(addr, ALL_FIELDS)
    requires s.moduleAt(addr).Some? ==> IsBufferText(s.moduleAt(addr).value)
    requires addr in s.labels ==> IsBufferText(s.labels[addr])
    requires addr in s.comments ==> IsBufferText(s.comments[addr])
    ensures var a := ResolveAnnotation(s, addr);
            a.moduleText == (if s.moduleAt(addr).Some? then Fitted(s.moduleAt(addr).value, MAX_MODULE_SIZE) else "") &&
            a.labelText == (if addr in s.labels then Fitted(s.labels[addr], MAX_LABEL_SIZE) else "") &&
            a.commentText == (if addr in s.comments then StripAutoComment(Fitted(s.comments[addr], MAX_COMMENT_SIZE)) else "")
  {
    if s.moduleAt(addr).Some? {
      FilledText(s.moduleAt(addr).value, MAX_MODULE_SIZE);
    } else {
      ZerosAreEmpty(MAX_MODULE_SIZE);
    }
    if addr in s.labels {
      FilledText(s.labels[addr], MAX_LABEL_SIZE);
    } else {
      ZerosAreEmpty(MAX_LABEL_SIZE);
    }
    if addr in s.comments {
      FilledText(s.comments[addr], MAX_COMMENT_SIZE);
    } else {
      ZerosAreEmpty(MAX_COMMENT_SIZE);
    }
  }

  /** When the combined query fails and the module-only retry succeeds, the frame
      shows the module name the engine knows there (empty when it knows none) and an
      empty label and comment. */
  lemma {:induction false} FallbackShowsModule(s: Snapshot, addr: U64)
    requires !s.addrInfoOk(addr, ALL_FIELDS) && s.addrInfoOk(addr, MODULE_ONLY)
    requires s.moduleAt(addr).Some? ==> IsBufferText(s.moduleAt(addr).value)
    ensures ResolveAnnotation(s, addr) ==
            FrameAnnotation(if s.moduleAt(addr).Some? then Fitted(s.moduleAt(addr).value, MAX_MODULE_SIZE) else "", "", "")
  {
    if s.moduleAt(addr).Some? {
      FilledText(s.moduleAt(addr).value, MAX_MODULE_SIZE);
    } else {
      ZerosAreEmpty(MAX_MODULE_SIZE);
    }
  }

  /** Under the bridge's documented success rule the module-only retry can never
      succeed where the combined query failed: a failed combined query means no
      module is known either, so the frame shows "Lookup Failed" with empty label and
      comment. */
  lemma FallbackAlwaysFails(s: Snapshot, addr: U64)
    requires SuccessMeansFound(s, addr, ALL_FIELDS) && SuccessMeansFound(s, addr, MODULE_ONLY)
    requires !s.addrInfoOk(addr, ALL_FIELDS)
    ensures AddrInfoGet(s, addr, MODULE_ONLY).None?
    ensures ResolveAnnotation(s, addr) == FrameAnnotation(LOOKUP_FAILED, "", "")
  {
  }

  /** An automatic comment is shown without its mark. */
  lemma {:induction false} AutoCommentShown(s: Snapshot, addr: U64, t: string)
    requires s.addrInfoOk(addr, ALL_FIELDS)
    requires addr in s.comments && s.comments[addr] == [AUTO_COMMENT_MARK] + t
    requires |t| < MAX_COMMENT_SIZE - 1 && IsBufferText(t)
    requires s.moduleAt(addr).Some? ==> IsBufferText(s.moduleAt(addr).value)
    requires addr in s.labels ==> IsBufferText(s.labels[addr])
    ensures ResolveAnnotation(s, addr).commentText == t
  {
    assert IsBufferText(s.comments[addr]) by {
      forall i | 0 <= i < |s.comments[addr]| ensures 0 < s.comments[addr][i] as int < 0x100 {
        if i > 0 {
          assert s.comments[addr][i] == t[i - 1];
        }
      }
    }
    AnnotationWhenKnown(s, addr);
    assert ([AUTO_COMMENT_MARK] + t)[1..] == t;
  }
}
