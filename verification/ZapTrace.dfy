/**
  The zap core's stack parser: pairs of lines of a printed stack become trace frames, the entry's
  caller goes first, repeated frames are dropped, and the collector keeps what is left.
*/
module ZapTrace {
  import opened Common
  import opened LogTrace
  import opened GoText
  import CollectorSpec

  // ---- One frame ---------------------------------------------------------------------------

  function TrimParenthesis(s: string): string {
    if s != "" && s[|s| - 1] == ')' then s[..|s| - 1] else s
  }

  /** The last colon before position `n`, or -1. */
  function LastColon(s: string, n: nat): (k: int)
    requires n <= |s|
    ensures -1 <= k < n
  {
    if n == 0 then -1 else if s[n - 1] == COLON then n - 1 else LastColon(s, n - 1)
  }

  /** `file:line`, possibly followed by one closing parenthesis. */
  function ParseFileLine(text: string): Option<(string, int)> {
    var s := TrimParenthesis(text);
    var k := LastColon(s, |s|);
    if k == -1 || k == |s| - 1 then None
    else
      var line := Atoi(s[k + 1..]);
      if line.None? then None else Some((s[..k], line.value))
  }

  /** The frame that two adjacent lines describe, if they describe one. */
  function FrameOf(first: string, second: string): Option<Frame> {
    var call := TrimSpace(first);
    if call == "" then None
    else
      var place := ParseFileLine(TrimSpace(second));
      if place.None? then None
      else Some(Frame(call, place.value.0, place.value.1, IsVendorPath(place.value.0)))
  }

  // ---- The whole stack ---------------------------------------------------------------------

  /** A reader of two adjacent lines; the scan below only ever uses `FrameOf`. */
  type PairReader = (string, string) -> Option<Frame>

  /**
    What a scan that has found `done` finds in all, going on from line `i`: a frame takes the next
    line along, any other line is skipped, and the scan stops when it is full.
  */
  function Scan(read: PairReader, lines: seq<string>, i: nat, done: seq<Frame>): seq<Frame>
    decreases |lines| - i
  {
    if |done| >= MAX_FRAMES || i + 1 >= |lines| then done
    else
      var frame := read(lines[i], lines[i + 1]);
      if frame.Some? then Scan(read, lines, i + 2, done + [frame.value]) else Scan(read, lines, i + 1, done)
  }

  function ParseStack(stack: string): seq<Frame> {
    var text := TrimSpace(stack);
    if text == "" then [] else Scan(FrameOf, SplitLines(text), 0, [])
  }

  method ScanLines(read: PairReader, lines: seq<string>) returns (frames: seq<Frame>)
    ensures frames == Scan(read, lines, 0, [])
  {
    frames := [];
    var i := 0;
    while i < |lines| - 1 && |frames| < MAX_FRAMES
      invariant 0 <= i && Scan(read, lines, i, frames) == Scan(read, lines, 0, [])
    {
      var frame := read(lines[i], lines[i + 1]);
      if frame.Some? {
        frames := frames + [frame.value];
        i := i + 1;
      }
      i := i + 1;
    }
  }

  method ParseZapStack(stack: string) returns (frames: seq<Frame>)
    ensures frames == ParseStack(stack)
  {
    var text := TrimSpace(stack);
    if text == "" {
      return [];
    }
    frames := ScanLines(FrameOf, SplitLines(text));
  }

  // ---- Printing and reading back -----------------------------------------------------------

  /** A frame on two lines, the way zap prints a stack. */
  function PrintFrame(frame: Frame): (string, string) {
    (frame.call, "\t" + frame.file + [COLON] + PrintInt(frame.line))
  }

  /** A writer of two lines for a frame; only `PrintFrame` is ever used. */
  type FrameWriter = Frame -> (string, string)

  function StackLines(write: FrameWriter, frames: seq<Frame>): seq<string> {
    seq(2 * |frames|, k requires 0 <= k < 2 * |frames| =>
      if k % 2 == 0 then write(frames[k / 2]).0 else write(frames[k / 2]).1)
  }

  function PrintStack(frames: seq<Frame>): string {
    if frames == [] then "" else JoinLines(StackLines(PrintFrame, frames))
  }

  /** The frames that printing does not garble. */
  predicate Printable(frame: Frame) {
    && frame.call != "" && IsTrimmed(frame.call) && OneLine(frame.call)
    && OneLine(frame.file) && (frame.file != "" ==> !IsSpace(frame.file[0]))
    && FitsInt(frame.line)
    && frame.isVendor == IsVendorPath(frame.file)
  }

  predicate AllPrintable(frames: seq<Frame>) {
    forall f :: f in frames ==> Printable(f)
  }

  lemma {:induction false} LastColonAt(s: string, k: nat, n: nat)
    requires k < n <= |s| && s[k] == COLON && COLON !in s[k + 1..]
    ensures LastColon(s, n) == k
  {
    if k < n - 1 {
      assert s[n - 1] == s[k + 1..][n - k - 2];
      LastColonAt(s, k, n - 1);
    }
  }

  lemma ParseFileLineAt(file: string, digits: string, line: int)
    requires COLON !in digits && digits != "" && digits[|digits| - 1] != ')' && Atoi(digits) == Some(line)
    ensures ParseFileLine(file + [COLON] + digits) == Some((file, line))
  {
    var s := file + [COLON] + digits;
    assert s[|s| - 1] == digits[|digits| - 1];
    assert s[..|file|] == file && s[|file| + 1..] == digits;
    LastColonAt(s, |file|, |s|);
  }

  lemma AtoiEnds(digits: string)
    requires Atoi(digits).Some?
    ensures digits != "" && IsDigit(digits[|digits| - 1])
  {
  }

  lemma ParenthesisOff(text: string, s: string)
    requires s != "" && s[|s| - 1] != ')' && (text == s || text == s + [')'])
    ensures TrimParenthesis(text) == s && ParseFileLine(text) == ParseFileLine(s)
  {
  }

  lemma DigitIsNotSpace(c: char)
    ensures IsDigit(c) ==> !IsSpace(c)
  {
  }

  lemma PlaceBack(frame: Frame)
    requires Printable(frame)
    ensures ParseFileLine(TrimSpace(PrintFrame(frame).1)) == Some((frame.file, frame.line))
  {
    var digits := PrintInt(frame.line);
    var place := frame.file + [COLON] + digits;
    AtoiPrint(frame.line);
    assert place[|place| - 1] == digits[|digits| - 1];
    DigitIsNotSpace(digits[|digits| - 1]);
    TrimIsTrimmed(place);
    TrimLeading('\t', place);
    assert PrintFrame(frame).1 == ['\t'] + place;
    ParseFileLineAt(frame.file, digits, frame.line);
  }

  lemma FrameBack(frame: Frame)
    requires Printable(frame)
    ensures FrameOf(PrintFrame(frame).0, PrintFrame(frame).1) == Some(frame)
  {
    PlaceBack(frame);
    TrimIsTrimmed(frame.call);
  }

  /** A scan that reads every frame off its two lines takes exactly those. */
  lemma {:induction false} ScanBack(read: PairReader, lines: seq<string>, frames: seq<Frame>, k: nat)
    requires |lines| == 2 * |frames| && k <= |frames| && k <= MAX_FRAMES
    requires forall j {:trigger frames[j]} :: 0 <= j < |frames| ==> read(lines[2 * j], lines[2 * j + 1]) == Some(frames[j])
    ensures Scan(read, lines, 0, []) == Scan(read, lines, 2 * k, frames[..k])
  {
    if k > 0 {
      ScanBack(read, lines, frames, k - 1);
      assert frames[..k] == frames[..k - 1] + [frames[k - 1]];
    }
  }

  lemma StackLinesAt(write: FrameWriter, frames: seq<Frame>, k: nat)
    requires k < |frames|
    ensures StackLines(write, frames)[2 * k] == write(frames[k]).0
    ensures StackLines(write, frames)[2 * k + 1] == write(frames[k]).1
  {
  }

  /** What one frame's lines give back, the lines of a stack give back. */
  lemma StackBack(read: PairReader, write: FrameWriter, frames: seq<Frame>)
    requires forall k {:trigger frames[k]} :: 0 <= k < |frames| ==> read(write(frames[k]).0, write(frames[k]).1) == Some(frames[k])
    ensures Scan(read, StackLines(write, frames), 0, []) == Take(frames, MAX_FRAMES)
  {
    var lines := StackLines(write, frames);
    forall k | 0 <= k < |frames| ensures read(lines[2 * k], lines[2 * k + 1]) == Some(frames[k]) {
      StackLinesAt(write, frames, k);
    }
    ScanBack(read, lines, frames, |Take(frames, MAX_FRAMES)|);
  }

  /** Neither line of a frame contains a newline, and the second one ends in a digit. */
  predicate GoodLines(lines: (string, string)) {
    && OneLine(lines.0) && OneLine(lines.1)
    && lines.0 != "" && !IsSpace(lines.0[0])
    && lines.1 != "" && !IsSpace(lines.1[|lines.1| - 1])
  }

  lemma PrintFrameIsGood(frame: Frame)
    requires Printable(frame)
    ensures GoodLines(PrintFrame(frame))
  {
    AtoiPrint(frame.line);
    var digits := PrintInt(frame.line);
    DigitIsNotSpace(digits[|digits| - 1]);
    assert PrintFrame(frame).1[|PrintFrame(frame).1| - 1] == digits[|digits| - 1];
  }

  lemma StackLinesAreGood(write: FrameWriter, frames: seq<Frame>)
    requires frames != [] && forall k {:trigger frames[k]} :: 0 <= k < |frames| ==> GoodLines(write(frames[k]))
    ensures var lines := StackLines(write, frames);
            AllOneLine(lines) && GoodLines((lines[0], lines[|lines| - 1]))
  {
    var n := |frames|;
    assert GoodLines(write(frames[0])) && GoodLines(write(frames[n - 1]));
    assert StackLines(write, frames)[2 * n - 1] == write(frames[n - 1]).1;
  }

  lemma JoinStarts(lines: seq<string>)
    requires lines != [] && lines[0] != ""
    ensures JoinLines(lines) != "" && JoinLines(lines)[0] == lines[0][0]
  {
    if |lines| > 1 {
      assert JoinLines(lines) == lines[0] + ([NEWLINE] + JoinLines(lines[1..]));
    }
  }

  lemma {:induction false} JoinLast(lines: seq<string>)
    requires lines != [] && lines[|lines| - 1] != ""
    ensures var text := JoinLines(lines); var last := lines[|lines| - 1];
            text != "" && text[|text| - 1] == last[|last| - 1]
  {
    if |lines| > 1 {
      JoinLast(lines[1..]);
    }
  }

  lemma TrimmedStays(text: string)
    requires text != "" && IsTrimmed(text)
    ensures TrimSpace(text) == text
  {
    TrimIsTrimmed(text);
  }

  lemma JoinedIsTrimmed(lines: seq<string>)
    requires lines != [] && GoodLines((lines[0], lines[|lines| - 1]))
    ensures JoinLines(lines) != "" && TrimSpace(JoinLines(lines)) == JoinLines(lines)
  {
    JoinStarts(lines);
    JoinLast(lines);
    TrimmedStays(JoinLines(lines));
  }

  lemma ReadsBack(read: PairReader, write: FrameWriter, frames: seq<Frame>)
    requires frames != []
    requires forall k {:trigger frames[k]} :: 0 <= k < |frames| ==> read(write(frames[k]).0, write(frames[k]).1) == Some(frames[k])
    requires forall k {:trigger frames[k]} :: 0 <= k < |frames| ==> GoodLines(write(frames[k]))
    ensures var text := JoinLines(StackLines(write, frames));
            TrimSpace(text) == text != "" && Scan(read, SplitLines(text), 0, []) == Take(frames, MAX_FRAMES)
  {
    StackLinesAreGood(write, frames);
    JoinedIsTrimmed(StackLines(write, frames));
    SplitJoin(StackLines(write, frames));
    StackBack(read, write, frames);
  }

  /** Reading a printed stack gives its first twelve frames. */
  lemma RoundTrip(frames: seq<Frame>)
    requires AllPrintable(frames)
    ensures ParseStack(PrintStack(frames)) == Take(frames, MAX_FRAMES)
  {
    if frames != [] {
      forall k | 0 <= k < |frames|
        ensures FrameOf(PrintFrame(frames[k]).0, PrintFrame(frames[k]).1) == Some(frames[k])
        ensures GoodLines(PrintFrame(frames[k]))
      {
        assert frames[k] in frames;
        FrameBack(frames[k]);
        PrintFrameIsGood(frames[k]);
      }
      ReadsBack(FrameOf, PrintFrame, frames);
    }
  }

  // ---- Any text at all ---------------------------------------------------------------------

  /** Where a frame was read. */
  ghost predicate ReadAt(read: PairReader, lines: seq<string>, f: Frame, k: int) {
    0 <= k < |lines| - 1 && read(lines[k], lines[k + 1]) == Some(f)
  }

  /** Every frame of a scan was read somewhere, and two frames never share a line. */
  lemma {:induction false} ScanIsBounded(read: PairReader, lines: seq<string>, i: nat, done: seq<Frame>)
    requires |done| <= MAX_FRAMES
    ensures |Scan(read, lines, i, done)| <= MAX_FRAMES
    ensures i <= |lines| ==> 2 * |Scan(read, lines, i, done)| <= 2 * |done| + |lines| - i
    ensures forall f :: f in Scan(read, lines, i, done) ==> f in done || exists k :: ReadAt(read, lines, f, k)
    decreases |lines| - i
  {
    if |done| < MAX_FRAMES && i + 1 < |lines| {
      var frame := read(lines[i], lines[i + 1]);
      if frame.Some? {
        assert ReadAt(read, lines, frame.value, i);
        ScanIsBounded(read, lines, i + 2, done + [frame.value]);
      } else {
        ScanIsBounded(read, lines, i + 1, done);
      }
    }
  }

  /** `at` says at which lines the frames start: each has two lines, and no other line could have started one. */
  ghost predicate FramesAt(read: PairReader, lines: seq<string>, frames: seq<Frame>, at: seq<nat>) {
    && |at| == |frames| <= 12
    && (forall k :: 0 <= k < |at| ==> at[k] + 1 < |lines| && read(lines[at[k]], lines[at[k] + 1]) == Some(frames[k]))
    && (forall j, k :: 0 <= j < k < |at| ==> at[j] + 2 <= at[k])
  }

  /** All the frames end before line `i`. */
  ghost predicate EndBy(at: seq<nat>, i: nat) {
    forall k :: 0 <= k < |at| ==> at[k] + 2 <= i
  }

  lemma EndBySnoc(at: seq<nat>, i: nat)
    requires EndBy(at, i)
    ensures EndBy(at + [i], i + 2) && EndBy(at, i + 1)
  {
  }

  /** A line before `end` that neither starts nor ends a frame is one at which none can be read, or comes after the twelfth. */
  ghost predicate MissesNone(read: PairReader, lines: seq<string>, at: seq<nat>, end: nat) {
    forall p: nat {:trigger lines[p]} :: p < end && p + 1 < |lines| ==>
      || p in at || (p > 0 && p - 1 in at) || read(lines[p], lines[p + 1]).None?
      || (|at| == 12 && forall k :: 0 <= k < |at| ==> at[k] < p)
  }

  lemma MissesNoneGrows(read: PairReader, lines: seq<string>, at: seq<nat>, i: nat)
    requires |at| < 12 && MissesNone(read, lines, at, i) && EndBy(at, i)
    ensures MissesNone(read, lines, at + [i], i + 2)
  {
    forall p: nat | p < i + 2 && p + 1 < |lines|
      ensures || p in at + [i] || (p > 0 && p - 1 in at + [i]) || read(lines[p], lines[p + 1]).None?
    {
      assert (at + [i])[|at|] == i;
    }
  }

  lemma MissesNoneSkips(read: PairReader, lines: seq<string>, at: seq<nat>, i: nat)
    requires MissesNone(read, lines, at, i) && i + 1 < |lines| && read(lines[i], lines[i + 1]).None?
    ensures MissesNone(read, lines, at, i + 1)
  {
  }

  lemma MissesNoneEnds(read: PairReader, lines: seq<string>, at: seq<nat>, i: nat)
    requires MissesNone(read, lines, at, i) && EndBy(at, i)
    requires |at| == 12 || i + 1 >= |lines|
    ensures MissesNone(read, lines, at, |lines|)
  {
  }

  lemma FramesAtSnoc(read: PairReader, lines: seq<string>, frames: seq<Frame>, at: seq<nat>, f: Frame, i: nat)
    requires FramesAt(read, lines, frames, at) && |at| < 12 && EndBy(at, i)
    requires i + 1 < |lines| && read(lines[i], lines[i + 1]) == Some(f)
    ensures FramesAt(read, lines, frames + [f], at + [i])
  {
  }

  lemma {:induction false} ScanFrom(read: PairReader, lines: seq<string>, i: nat, done: seq<Frame>, before: seq<nat>) returns (at: seq<nat>)
    requires FramesAt(read, lines, done, before) && EndBy(before, i)
    requires MissesNone(read, lines, before, i)
    ensures FramesAt(read, lines, Scan(read, lines, i, done), at) && MissesNone(read, lines, at, |lines|)
    decreases |lines| - i
  {
    if |done| >= MAX_FRAMES || i + 1 >= |lines| {
      MissesNoneEnds(read, lines, before, i);
      at := before;
    } else {
      var frame := read(lines[i], lines[i + 1]);
      EndBySnoc(before, i);
      if frame.Some? {
        FramesAtSnoc(read, lines, done, before, frame.value, i);
        MissesNoneGrows(read, lines, before, i);
        at := ScanFrom(read, lines, i + 2, done + [frame.value], before + [i]);
      } else {
        MissesNoneSkips(read, lines, before, i);
        at := ScanFrom(read, lines, i + 1, done, before);
      }
    }
  }

  /**
    What the parser reads off any text: frames of two adjacent lines that do not overlap, in order,
    and it misses none. A line that starts no frame and ends none is one at which none can be read,
    unless twelve frames came before it.
  */
  lemma ParsesAll(stack: string) returns (at: seq<nat>)
    requires TrimSpace(stack) != ""
    ensures FramesAt(FrameOf, SplitLines(TrimSpace(stack)), ParseStack(stack), at)
    ensures MissesNone(FrameOf, SplitLines(TrimSpace(stack)), at, |SplitLines(TrimSpace(stack))|)
  {
    at := ScanFrom(FrameOf, SplitLines(TrimSpace(stack)), 0, [], []);
  }

  lemma ParsesNothing(stack: string)
    requires AllSpace(stack)
    ensures ParseStack(stack) == []
  {
    BlankIff(stack);
  }

  lemma LastColonSplits(s: string, n: nat)
    requires n <= |s|
    ensures LastColon(s, n) >= 0 ==> s[LastColon(s, n)] == COLON
    ensures forall k :: LastColon(s, n) < k < n ==> s[k] != COLON
  {
  }

  /** The text is a file, a colon and these digits, and possibly a closing parenthesis. */
  predicate PlaceWith(text: string, file: string, digits: string, line: int) {
    && COLON !in digits && Atoi(digits) == Some(line)
    && (text == file + [COLON] + digits || text == file + [COLON] + digits + [')'])
  }

  ghost predicate IsPlace(text: string, file: string, line: int) {
    exists digits :: PlaceWith(text, file, digits, line)
  }

  lemma TrimmedParenthesis(text: string)
    ensures var s := TrimParenthesis(text); text == s || text == s + [')']
  {
  }

  lemma SplitAtColon(s: string, k: nat)
    requires k < |s| && s[k] == COLON
    ensures s == s[..k] + [COLON] + s[k + 1..]
  {
  }

  lemma PlaceFound(text: string) returns (digits: string)
    requires ParseFileLine(text).Some?
    ensures PlaceWith(text, ParseFileLine(text).value.0, digits, ParseFileLine(text).value.1)
  {
    var s := TrimParenthesis(text);
    var k := LastColon(s, |s|);
    digits := s[k + 1..];
    TrimmedParenthesis(text);
    LastColonSplits(s, |s|);
    SplitAtColon(s, k);
    assert COLON !in digits;
  }

  lemma PlaceRead(text: string, file: string, digits: string, line: int)
    requires PlaceWith(text, file, digits, line)
    ensures ParseFileLine(text) == Some((file, line))
  {
    var s := file + [COLON] + digits;
    AtoiEnds(digits);
    assert s[|s| - 1] == digits[|digits| - 1];
    ParseFileLineAt(file, digits, line);
    ParenthesisOff(text, s);
  }

  lemma PlaceIff(text: string, file: string, line: int)
    ensures ParseFileLine(text) == Some((file, line)) <==> IsPlace(text, file, line)
  {
    if ParseFileLine(text) == Some((file, line)) {
      var digits := PlaceFound(text);
    }
    if digits :| PlaceWith(text, file, digits, line) {
      PlaceRead(text, file, digits, line);
    }
  }

  /** Two lines are a frame exactly if the first is not blank and the second is a place. */
  lemma FrameIff(first: string, second: string, f: Frame)
    ensures FrameOf(first, second) == Some(f) <==>
              && f.call == TrimSpace(first) != "" && IsPlace(TrimSpace(second), f.file, f.line)
              && f.isVendor == IsVendorPath(f.file)
  {
    PlaceIff(TrimSpace(second), f.file, f.line);
  }

  lemma FrameOfIsPrintable(first: string, second: string)
    requires OneLine(first) && OneLine(second)
    ensures FrameOf(first, second).Some? ==> Printable(FrameOf(first, second).value)
  {
    TrimIsTrimmed(first);
    TrimIsTrimmed(second);
    var place := ParseFileLine(TrimSpace(second));
    if place.Some? && place.value.0 != "" {
      assert place.value.0[0] == TrimSpace(second)[0];
      assert forall c :: c in place.value.0 ==> c in TrimSpace(second);
    }
  }

  /** Whatever the text, the parser stops with at most twelve frames, at most one for every two lines. */
  lemma AnyTextIsBounded(stack: string)
    ensures |ParseStack(stack)| <= MAX_FRAMES && 2 * |ParseStack(stack)| <= |SplitLines(TrimSpace(stack))|
    ensures AllPrintable(ParseStack(stack))
  {
    var lines := SplitLines(TrimSpace(stack));
    JoinSplit(TrimSpace(stack));
    ScanIsBounded(FrameOf, lines, 0, []);
    forall f, k | ReadAt(FrameOf, lines, f, k) ensures Printable(f) {
      FrameOfIsPrintable(lines[k], lines[k + 1]);
    }
  }

  /** A list of frames survives printing and reading exactly when it is short and every frame is printable. */
  lemma RoundTripIff(frames: seq<Frame>)
    ensures ParseStack(PrintStack(frames)) == frames <==> |frames| <= MAX_FRAMES && AllPrintable(frames)
  {
    AnyTextIsBounded(PrintStack(frames));
    if AllPrintable(frames) {
      RoundTrip(frames);
    }
  }

  /** Printing what was read and reading it again changes nothing, whatever the text was. */
  lemma ReadingIsStable(stack: string)
    ensures ParseStack(PrintStack(ParseStack(stack))) == ParseStack(stack)
  {
    AnyTextIsBounded(stack);
    RoundTripIff(ParseStack(stack));
  }

  // ---- The trace of an entry ---------------------------------------------------------------

  /** The part of a zap entry the trace comes from. */
  datatype Entry = Entry(callerDefined: bool, callerFile: string, callerLine: int, stack: string)

  predicate SamePlace(a: Frame, b: Frame) {
    a.file == b.file && a.line == b.line && a.call == b.call
  }

  predicate Occurs(f: Frame, frames: seq<Frame>) {
    exists k :: 0 <= k < |frames| && SamePlace(f, frames[k])
  }

  method IsSameFrame(candidate: Frame, existing: seq<Frame>) returns (same: bool)
    ensures same <==> exists k :: 0 <= k < |existing| && existing[k].file == candidate.file &&
                                  existing[k].line == candidate.line && existing[k].call == candidate.call
    ensures same <==> Occurs(candidate, existing)
  {
    for k := 0 to |existing|
      invariant !Occurs(candidate, existing[..k])
    {
      if existing[k].file == candidate.file && existing[k].line == candidate.line && existing[k].call == candidate.call {
        return true;
      }
    }
    assert existing[..|existing|] == existing;
    return false;
  }

  function CallerFrames(entry: Entry): seq<Frame> {
    if entry.callerDefined && entry.callerFile != "" then
      [Frame("", entry.callerFile, entry.callerLine, IsVendorPath(entry.callerFile))]
    else []
  }

  /** The frames that are not in the same place as an earlier one of the list. */
  function FirstOccurrences(frames: seq<Frame>): seq<Frame> {
    if frames == [] then []
    else
      var earlier := frames[..|frames| - 1];
      var last := frames[|frames| - 1];
      FirstOccurrences(earlier) + if Occurs(last, earlier) then [] else [last]
  }

  ghost predicate DistinctPlaces(frames: seq<Frame>) {
    forall i, j :: 0 <= i < j < |frames| ==>
      frames[i].file != frames[j].file || frames[i].line != frames[j].line || frames[i].call != frames[j].call
  }

  /** The trace of an entry: the caller, then the parsed stack in order, each place once, twelve at most. */
  function TraceOf(entry: Entry): seq<Frame> {
    Take(CallerFrames(entry) + FirstOccurrences(ParseStack(entry.stack)), MAX_FRAMES)
  }

  lemma OccursSnoc(frames: seq<Frame>, last: Frame, f: Frame)
    ensures Occurs(f, frames + [last]) <==> Occurs(f, frames) || SamePlace(f, last)
  {
    var all := frames + [last];
    assert forall k :: 0 <= k < |frames| ==> all[k] == frames[k];
    assert all[|frames|] == last;
  }

  lemma OccursTransfers(g: Frame, f: Frame, frames: seq<Frame>)
    requires Occurs(g, frames)
    ensures SamePlace(f, g) ==> Occurs(f, frames)
  {
    if SamePlace(f, g) {
      var k :| 0 <= k < |frames| && SamePlace(g, frames[k]);
      assert SamePlace(f, frames[k]);
    }
  }

  /** Dropping repetitions loses no place. */
  lemma {:induction false} OccurrencesKept(frames: seq<Frame>, f: Frame)
    ensures Occurs(f, FirstOccurrences(frames)) <==> Occurs(f, frames)
  {
    if frames != [] {
      var earlier := frames[..|frames| - 1];
      var last := frames[|frames| - 1];
      OccurrencesKept(earlier, f);
      OccursSnoc(earlier, last, f);
      assert frames == earlier + [last];
      if Occurs(last, earlier) {
        OccursTransfers(last, f, earlier);
        assert FirstOccurrences(frames) == FirstOccurrences(earlier);
      } else {
        OccursSnoc(FirstOccurrences(earlier), last, f);
      }
    }
  }

  lemma {:induction false} OccurrencesDistinct(frames: seq<Frame>)
    ensures DistinctPlaces(FirstOccurrences(frames))
    ensures forall f :: f in FirstOccurrences(frames) ==> f in frames
  {
    if frames != [] {
      var earlier := frames[..|frames| - 1];
      OccurrencesDistinct(earlier);
      OccurrencesKept(earlier, frames[|frames| - 1]);
    }
  }

  /** Where a frame's place occurs first. */
  function FirstAt(frames: seq<Frame>, f: Frame): (k: nat)
    requires Occurs(f, frames)
    ensures k < |frames| && SamePlace(f, frames[k])
    ensures forall j :: 0 <= j < k ==> !SamePlace(f, frames[j])
  {
    var earlier := frames[..|frames| - 1];
    assert forall j :: 0 <= j < |earlier| ==> earlier[j] == frames[j];
    if Occurs(f, earlier) then FirstAt(earlier, f) else |frames| - 1
  }

  lemma FirstAtEarlier(earlier: seq<Frame>, last: Frame, f: Frame)
    requires Occurs(f, earlier)
    ensures Occurs(f, earlier + [last]) && FirstAt(earlier + [last], f) == FirstAt(earlier, f)
  {
    OccursSnoc(earlier, last, f);
    assert (earlier + [last])[..|earlier|] == earlier;
  }

  lemma FirstAtLast(earlier: seq<Frame>, last: Frame)
    requires !Occurs(last, earlier)
    ensures Occurs(last, earlier + [last]) && FirstAt(earlier + [last], last) == |earlier|
  {
    OccursSnoc(earlier, last, last);
    assert (earlier + [last])[..|earlier|] == earlier;
  }

  /** `kept` holds frames of `frames`, each the first of its place, in the order of `frames`. */
  ghost predicate InFirstOrder(frames: seq<Frame>, kept: seq<Frame>) {
    && (forall i :: 0 <= i < |kept| ==> Occurs(kept[i], frames) && frames[FirstAt(frames, kept[i])] == kept[i])
    && (forall i, j :: 0 <= i < j < |kept| ==> FirstAt(frames, kept[i]) < FirstAt(frames, kept[j]))
  }

  lemma InFirstOrderEarlier(earlier: seq<Frame>, last: Frame, kept: seq<Frame>)
    requires InFirstOrder(earlier, kept)
    ensures InFirstOrder(earlier + [last], kept)
    ensures forall i :: 0 <= i < |kept| ==> FirstAt(earlier + [last], kept[i]) < |earlier|
  {
    forall i | 0 <= i < |kept|
      ensures Occurs(kept[i], earlier + [last]) && FirstAt(earlier + [last], kept[i]) == FirstAt(earlier, kept[i]) < |earlier|
    {
      FirstAtEarlier(earlier, last, kept[i]);
    }
  }

  lemma OccurrencesSnoc(earlier: seq<Frame>, last: Frame)
    ensures FirstOccurrences(earlier + [last]) == FirstOccurrences(earlier) + if Occurs(last, earlier) then [] else [last]
  {
    assert (earlier + [last])[..|earlier|] == earlier;
  }

  /** A frame that occurs first after all the kept ones may follow them. */
  lemma InFirstOrderSnoc(frames: seq<Frame>, kept: seq<Frame>, last: Frame)
    requires InFirstOrder(frames, kept) && Occurs(last, frames) && frames[FirstAt(frames, last)] == last
    requires forall i :: 0 <= i < |kept| ==> FirstAt(frames, kept[i]) < FirstAt(frames, last)
    ensures InFirstOrder(frames, kept + [last])
  {
  }

  /** What is kept of a list is kept in the order in which places occur first. */
  lemma {:induction false} OccurrencesInOrder(frames: seq<Frame>)
    ensures InFirstOrder(frames, FirstOccurrences(frames))
  {
    if frames != [] {
      var earlier, last := frames[..|frames| - 1], frames[|frames| - 1];
      assert frames == earlier + [last];
      OccurrencesInOrder(earlier);
      OccurrencesSnoc(earlier, last);
      InFirstOrderEarlier(earlier, last, FirstOccurrences(earlier));
      if !Occurs(last, earlier) {
        FirstAtLast(earlier, last);
        InFirstOrderSnoc(frames, FirstOccurrences(earlier), last);
      }
    }
  }

  /** Every parsed frame has a call and the caller's frame has none, so the caller never hides one. */
  lemma CallerHidesNothing(entry: Entry, f: Frame)
    requires f in ParseStack(entry.stack)
    ensures !Occurs(f, CallerFrames(entry))
  {
    AnyTextIsBounded(entry.stack);
  }

  lemma OccursConcat(a: seq<Frame>, b: seq<Frame>, f: Frame)
    ensures Occurs(f, a + b) <==> Occurs(f, a) || Occurs(f, b)
  {
    var all := a + b;
    assert forall k :: 0 <= k < |a| ==> all[k] == a[k];
    assert forall k :: 0 <= k < |b| ==> all[k + |a|] == b[k];
    assert forall k :: |a| <= k < |all| ==> all[k] == b[k - |a|];
  }

  /** Once a list is full, what comes later does not matter. */
  lemma {:induction false} OccurrencesGrow(frames: seq<Frame>, k: nat)
    requires k <= |frames|
    ensures FirstOccurrences(frames[..k]) <= FirstOccurrences(frames)
    decreases |frames| - k
  {
    if k < |frames| {
      assert frames[..k + 1][..k] == frames[..k];
      OccurrencesGrow(frames, k + 1);
    } else {
      assert frames[..k] == frames;
    }
  }

  /** Looking a parsed frame up among the frames kept so far tells whether its place is new. */
  lemma SeenBefore(entry: Entry, parsed: seq<Frame>, i: nat)
    requires i < |parsed| && parsed[i].call != ""
    ensures var kept := CallerFrames(entry) + FirstOccurrences(parsed[..i]);
            CallerFrames(entry) + FirstOccurrences(parsed[..i + 1]) == if Occurs(parsed[i], kept) then kept else kept + [parsed[i]]
  {
    var caller := CallerFrames(entry);
    var firsts := FirstOccurrences(parsed[..i]);
    OccursConcat(caller, firsts, parsed[i]);
    OccurrencesKept(parsed[..i], parsed[i]);
    assert parsed[..i + 1][..i] == parsed[..i];
    assert caller + (firsts + [parsed[i]]) == (caller + firsts) + [parsed[i]];
  }

  /** The loop has looked at the first `i` parsed frames and collected `frames`. */
  ghost predicate Collected(entry: Entry, parsed: seq<Frame>, i: nat, frames: seq<Frame>) {
    i <= |parsed| && |frames| <= MAX_FRAMES && frames == CallerFrames(entry) + FirstOccurrences(parsed[..i])
  }

  lemma CollectedNext(entry: Entry, parsed: seq<Frame>, i: nat, frames: seq<Frame>)
    requires Collected(entry, parsed, i, frames) && i < |parsed| && |frames| < MAX_FRAMES && parsed[i].call != ""
    ensures Collected(entry, parsed, i + 1, if Occurs(parsed[i], frames) then frames else frames + [parsed[i]])
  {
    SeenBefore(entry, parsed, i);
  }

  /** The loop may stop when the frames are at the limit, or at the end. */
  lemma CollectedAll(entry: Entry, i: nat, frames: seq<Frame>)
    requires Collected(entry, ParseStack(entry.stack), i, frames)
    requires i == |ParseStack(entry.stack)| || |frames| >= MAX_FRAMES
    ensures frames == TraceOf(entry)
  {
    var parsed := ParseStack(entry.stack);
    OccurrencesGrow(parsed, i);
    assert i == |parsed| ==> parsed[..i] == parsed;
  }

  method BuildLogTrace(entry: Entry) returns (frames: seq<Frame>)
    ensures frames == TraceOf(entry)
  {
    frames := [];
    if entry.callerDefined && entry.callerFile != "" {
      frames := frames + [Frame("", entry.callerFile, entry.callerLine, IsVendorPath(entry.callerFile))];
    }
    var parsed := ParseZapStack(entry.stack);
    AnyTextIsBounded(entry.stack);
    if |parsed| == 0 {
      return;
    }
    for i := 0 to |parsed|
      invariant Collected(entry, parsed, i, frames)
    {
      if |frames| >= MAX_FRAMES {
        CollectedAll(entry, i, frames);
        return;
      }
      assert parsed[i] in parsed;
      var same := IsSameFrame(parsed[i], frames);
      CollectedNext(entry, parsed, i, frames);
      if !same {
        frames := frames + [parsed[i]];
      }
    }
    CollectedAll(entry, |parsed|, frames);
  }

  lemma CallerAndFirstsDistinct(entry: Entry, firsts: seq<Frame>)
    requires DistinctPlaces(firsts) && forall f :: f in firsts ==> f.call != ""
    ensures DistinctPlaces(CallerFrames(entry) + firsts)
  {
    var caller := CallerFrames(entry);
    forall i, j | 0 <= i < j < |caller + firsts|
      ensures !SamePlace((caller + firsts)[i], (caller + firsts)[j])
    {
      assert (caller + firsts)[j] == firsts[j - |caller|] && firsts[j - |caller|] in firsts;
    }
  }

  /**
    The caller comes first: when it is defined and names a file, the first frame is its place, without
    a call; otherwise the trace has nothing but the first occurrences of the parsed stack.
  */
  lemma CallerFirst(entry: Entry)
    ensures entry.callerDefined && entry.callerFile != "" ==>
              && TraceOf(entry) != []
              && TraceOf(entry)[0].call == "" && TraceOf(entry)[0].file == entry.callerFile
              && TraceOf(entry)[0].line == entry.callerLine && TraceOf(entry)[0].isVendor == IsVendorPath(entry.callerFile)
    ensures !entry.callerDefined || entry.callerFile == "" ==>
              var firsts := FirstOccurrences(ParseStack(entry.stack));
              TraceOf(entry) == if |firsts| <= 12 then firsts else firsts[..12]
  {
    assert [] + FirstOccurrences(ParseStack(entry.stack)) == FirstOccurrences(ParseStack(entry.stack));
  }

  /** After the caller the trace has the first occurrences of the parsed stack, in order and up to twelve frames in all. */
  lemma StackFollows(entry: Entry, k: nat)
    requires k < |TraceOf(entry)|
    ensures var named, firsts := entry.callerDefined && entry.callerFile != "", FirstOccurrences(ParseStack(entry.stack));
            && |TraceOf(entry)| == (if (if named then 1 else 0) + |firsts| <= 12 then (if named then 1 else 0) + |firsts| else 12)
            && (named && k > 0 ==> TraceOf(entry)[k] == firsts[k - 1])
            && (!named ==> TraceOf(entry)[k] == firsts[k])
  {
  }

  lemma ParsedOccurs(caller: seq<Frame>, parsed: seq<Frame>, f: Frame)
    requires f in parsed
    ensures Occurs(f, caller + FirstOccurrences(parsed))
  {
    var k :| 0 <= k < |parsed| && parsed[k] == f;
    assert SamePlace(f, parsed[k]);
    OccurrencesKept(parsed, f);
    OccursConcat(caller, FirstOccurrences(parsed), f);
  }

  /**
    At most twelve frames, no place twice, the caller first; and a parsed place is missing only
    when the trace is full.
  */
  lemma TraceShape(entry: Entry)
    ensures |TraceOf(entry)| <= MAX_FRAMES && DistinctPlaces(TraceOf(entry))
    ensures CallerFrames(entry) <= TraceOf(entry)
    ensures |TraceOf(entry)| < MAX_FRAMES ==>
              forall f :: f in ParseStack(entry.stack) ==>
                exists g :: g in TraceOf(entry) && g.file == f.file && g.line == f.line && g.call == f.call
  {
    var caller := CallerFrames(entry);
    var parsed := ParseStack(entry.stack);
    AnyTextIsBounded(entry.stack);
    OccurrencesDistinct(parsed);
    CallerAndFirstsDistinct(entry, FirstOccurrences(parsed));
    if |TraceOf(entry)| < MAX_FRAMES {
      forall f | f in parsed
        ensures exists g :: g in TraceOf(entry) && g.file == f.file && g.line == f.line && g.call == f.call
      {
        ParsedOccurs(caller, parsed, f);
        var k :| 0 <= k < |TraceOf(entry)| && SamePlace(f, TraceOf(entry)[k]);
        assert TraceOf(entry)[k] in TraceOf(entry);
      }
    }
  }

  lemma {:induction false} CutFramesAt(lim: CollectorSpec.Limits, frames: seq<Frame>, k: nat)
    requires k < |frames|
    ensures |CollectorSpec.CutFrames(lim, frames)| == |frames|
    ensures CollectorSpec.CutFrames(lim, frames)[k] == CollectorSpec.CutFrame(lim, frames[k])
  {
    if |frames| == 1 {
      assert frames[1..] == [];
    } else {
      CutFramesAt(lim, frames[1..], if k > 0 then k - 1 else 0);
    }
  }

  /** The collector keeps every frame of a non-empty trace, in order, and only shortens its texts. */
  lemma TraceSurvivesCollector(entry: Entry, lim: CollectorSpec.Limits, running: seq<Frame>)
    requires TraceOf(entry) != []
    ensures var kept := CollectorSpec.CutFrames(lim, CollectorSpec.ChosenFrames(TraceOf(entry), running));
            && |kept| == |TraceOf(entry)|
            && forall k :: 0 <= k < |kept| ==> kept[k] == CollectorSpec.CutFrame(lim, TraceOf(entry)[k])
  {
    var trace := TraceOf(entry);
    forall k | 0 <= k < |trace|
      ensures |CollectorSpec.CutFrames(lim, trace)| == |trace|
      ensures CollectorSpec.CutFrames(lim, trace)[k] == CollectorSpec.CutFrame(lim, trace[k])
    {
      CutFramesAt(lim, trace, k);
    }
    assert |CollectorSpec.CutFrames(lim, trace)| == |trace| by {
      CutFramesAt(lim, trace, 0);
    }
  }
}
