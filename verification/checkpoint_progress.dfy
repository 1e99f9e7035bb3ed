/** What the checkpoint writer of checkpoint.dfy has to do, said of the stream and the sidecar
    alone: when a look succeeds and what it leaves, when a record is written and which, and
    what opening and closing name. */
module CheckpointProgress {
  import opened Wrappers
  import opened Stream
  import opened Checkpoint
  import opened CheckpointRuns

  /** The hashed bytes are whole lines, and they are counted; the head may be anything. */
  ghost predicate AtLineEnds(rules: Rules, ck: Ck) { Exact(rules, ck.(head := None)) }

  /** A look needs the length, and the bytes if there are any it has not seen. */
  predicate CanLook(ck: Ck, stream: Bytes, look: Look) {
    !look.metaFails && (|stream| == ck.off || stream == [] || !look.readFails)
  }

  /** The head a look finds: of the last whole line, if it is new and can be read. */
  function HeadFound(rules: Rules, ck: Ck, stream: Bytes, look: Look): Option<string> {
    WholePart(stream);
    var done := stream[..Whole(stream)];
    if ck.sum == done then ck.head else if look.headFails then None else rules.HeadOf(done)
  }

  /** What a look leaves: everything through the stream's last line feed is hashed and counted,
      and the lines that are new wait for a record. */
  ghost predicate Looked(rules: Rules, ck: Ck, stream: Bytes, look: Look, next: Ck) {
    var done := stream[..Whole(stream)];
    && next.sum == done && next.off == |done| && next.count == Lines(stream)
    && next.pending == ck.pending + Lines(stream) - (if |stream| < ck.off then 0 else ck.count)
    && next.head == HeadFound(rules, ck, stream, look)
    && SameSidecar(ck, next)
  }

  predicate SameSidecar(ck: Ck, next: Ck) {
    next.sidecar == ck.sidecar && next.sidecarLen == ck.sidecarLen && next.prev == ck.prev && next.lastAt == ck.lastAt
  }

  /** What is still hashed after the length was seen: nothing of a stream that got shorter. */
  function Base(ck: Ck, stream: Bytes): Ck {
    if |stream| < ck.off then ck.(sum := [], off := 0, count := 0, head := None) else ck
  }

  lemma BaseIsSeen(rules: Rules, ck: Ck, stream: Bytes)
    requires AtLineEnds(rules, ck) && Unrewritten(ck, stream)
    ensures var base := Base(ck, stream);
            && base.sum <= stream && IsWhole(base.sum) && base.off == |base.sum| && base.count == Lines(base.sum)
            && SameSidecar(ck, base) && base.pending == ck.pending
    ensures |stream| < ck.off ==> ck.sum != stream[..Whole(stream)]
  {
    hide Lines;
    NoLines();
  }

  /** Nothing new to read. */
  lemma NothingRead(rules: Rules, ck: Ck, stream: Bytes, look: Look)
    requires AtLineEnds(rules, ck) && Unrewritten(ck, stream) && |stream| == Base(ck, stream).off
    ensures Looked(rules, ck, stream, look, Base(ck, stream))
  {
    hide Lines, Rules.HeadOf, AtLineEnds;
    NoHead(rules);
    BaseIsSeen(rules, ck, stream);
    EndsWhereSeen(Base(ck, stream).sum, stream);
  }

  lemma NoHead(rules: Rules)
    ensures IsWhole([]) && rules.HeadOf([]) == None && Lines([]) == 0
  {
  }

  /** What is new is read. */
  lemma NewIsRead(rules: Rules, ck: Ck, stream: Bytes, look: Look, base: Ck, s: Scanned, head: Option<string>)
    requires AtLineEnds(rules, ck) && Unrewritten(ck, stream) && base == Base(ck, stream) && base.off <= |stream|
    requires s == Scan(stream, base.off, base.sum, base.count, 1)
    requires head == if s.count == base.count then base.head
                     else if look.headFails || s.marks == [] then None
                     else rules.HeadAt(stream, s.marks[|s.marks| - 1])
    ensures s.count >= base.count
    ensures Looked(rules, ck, stream, look,
              base.(sum := s.sum, off := s.off, count := s.count, head := head, pending := base.pending + s.count - base.count))
  {
    hide Lines, Scan, Rules.HeadAt, Rules.HeadOf, AtLineEnds, Whole;
    NoHead(rules);
    BaseIsSeen(rules, ck, stream);
    SeenSplits(base.sum, stream);
    ScanSum(stream, base.off, base.sum, base.count, 1);
    ScanIsExact(rules, stream, base.sum, base.off, 1);
    WholePart(stream);
    NewLinesShow(base.sum, stream);
  }

  /** A look succeeds exactly so, and leaves exactly that. */
  lemma LookLeaves(rules: Rules, ck: Ck, stream: Bytes, look: Look, next: Ck, ok: bool)
    requires AtLineEnds(rules, ck) && Unrewritten(ck, stream) && (next, ok) == Advanced(rules, ck, stream, look)
    ensures ok <==> CanLook(ck, stream, look)
    ensures if ok then Looked(rules, ck, stream, look, next) else SameSidecar(ck, next) && next.pending == ck.pending
  {
    hide Lines, Whole, Scan, Rules.HeadAt, Rules.HeadOf, Looked, AtLineEnds, Unrewritten;
    BaseIsSeen(rules, ck, stream);
    var base := Base(ck, stream);
    if !look.metaFails {
      if |stream| == base.off {
        NothingRead(rules, ck, stream, look);
      } else if !look.readFails {
        var s := Scan(stream, base.off, base.sum, base.count, 1);
        var head := if s.count == base.count then base.head
                    else if look.headFails || s.marks == [] then None
                    else rules.HeadAt(stream, s.marks[|s.marks| - 1]);
        NewIsRead(rules, ck, stream, look, base, s, head);
      }
    }
  }

  lemma SeenSplits(base: Bytes, stream: Bytes)
    requires IsWhole(base) && base <= stream
    ensures stream == base + stream[|base|..] && Lines(stream) == Lines(base) + Lines(stream[|base|..])
    ensures Whole(stream) == |base| + Whole(stream[|base|..])
    ensures base + stream[|base|..][..Whole(stream[|base|..])] == stream[..Whole(stream)]
  {
    hide Lines, Whole;
    assert stream == base + stream[|base|..];
    LinesAppend(base, stream[|base|..]);
    ZeroLines(stream[|base|..]);
  }

  lemma NewLinesShow(base: Bytes, stream: Bytes)
    requires IsWhole(base) && base <= stream
    ensures Lines(stream) == Lines(base) <==> stream[..Whole(stream)] == base
  {
    hide Lines, Whole;
    SeenSplits(base, stream);
    ZeroLines(stream[|base|..]);
    WholePart(stream);
  }

  lemma EndsWhereSeen(base: Bytes, stream: Bytes)
    requires IsWhole(base) && base <= stream && |stream| == |base|
    ensures stream == base && stream[..Whole(stream)] == base
  {
  }

  /** The record can be signed, and a reader accepts its length. */
  predicate Fits(rules: Rules, f: Fields) { rules.encode(f).Some? && |rules.encode(f).value| <= 4096 }

  /** One record more, and nothing else: its line is appended, the next one will name it, and
      no line waits any longer. */
  ghost predicate Grew(rules: Rules, ck: Ck, f: Fields, next: Ck)
    requires Fits(rules, f)
  {
    var line := rules.encode(f).value + [10];
    next == ck.(sidecar := ck.sidecar + line, sidecarLen := ck.sidecarLen + |line|,
                prev := rules.hash(rules.encode(f).value), lastAt := f.at, pending := 0)
  }

  /** What the sidecar is told of a state. */
  function Says(rules: Rules, ck: Ck, kind: Kind, count: nat, head: string, s: Bytes, now: int): Fields {
    Fields(kind, count, head, rules.hash(s), now, ck.prev)
  }

  /** A record is due: a line waits, and 64 do or ten seconds have passed. */
  predicate Waits(pending: nat, lastAt: int, now: int) { pending > 0 && (pending >= 64 || now - lastAt >= 10_000) }

  /** A record is written exactly when one is due, and it names the head and all that is
      hashed. */
  ghost predicate IsWrittenWhenDue(rules: Rules, ck: Ck, now: int, disk: Disk, next: Ck) {
    if ck.head.None? || !Waits(ck.pending, ck.lastAt, now) then next == ck
    else
      var f := Says(rules, ck, PeriodicKind, ck.count, ck.head.value, ck.sum, now);
      if !Fits(rules, f) then next == ck
      else if disk.Writes? then Grew(rules, ck, f, next)
      else Clean(ck) ==> next == Torn(rules, ck, f, disk)
  }

  lemma DueIsWritten(rules: Rules, ck: Ck, now: int, disk: Disk, next: Ck)
    requires next == WroteIfDue(rules, ck, now, disk)
    ensures IsWrittenWhenDue(rules, ck, now, disk, next)
  {
  }

  /** A write that failed is cut off again, or leaves part of the record. */
  function Torn(rules: Rules, ck: Ck, f: Fields, disk: Disk): Ck
    requires Fits(rules, f) && disk.Tears?
  {
    var line := rules.encode(f).value + [10];
    if disk.cut then ck
    else ck.(sidecar := ck.sidecar + line[..if disk.kept <= |line| then disk.kept else |line|])
  }

  /** What is counted after an own append: the head is the one handed over where the stream grew
      by just that, and otherwise what a reader finds. */
  ghost predicate IsCounted(
    rules: Rules, ck: Ck, stream: Bytes, written: Bytes, ownHead: Option<string>, look: Look, seen: Ck)
  {
    var done := stream[..Whole(stream)];
    && seen.sum == done && seen.off == |done| && seen.count == Lines(stream)
    && seen.pending == ck.pending + Lines(stream) - (if |stream| < ck.off then 0 else ck.count)
    && seen.head == (if |stream| == ck.off + |written| then ownHead else HeadFound(rules, ck, stream, look))
    && SameSidecar(ck, seen)
  }

  /** An own append of lines leaves everything hashed and counted, and a record if one is due; if
      the stream cannot be looked at, no record. */
  lemma AppendIsTold(
    rules: Rules, ck: Ck, stream: Bytes, written: Bytes, ownHead: Option<string>, look: Look, now: int, disk: Disk, next: Ck)
    returns (seen: Ck)
    requires AtLineEnds(rules, ck) && Unrewritten(ck, stream) && EndsWithLf(written)
    requires |stream| == ck.off + |written| ==> stream[ck.off..] == written
    requires next == Appended(rules, ck, stream, false, written, ownHead, look, now, disk)
    ensures if |stream| == ck.off + |written| || CanLook(ck, stream, look)
            then IsCounted(rules, ck, stream, written, ownHead, look, seen) && IsWrittenWhenDue(rules, seen, now, disk, next)
            else SameSidecar(ck, next)
  {
    hide Advanced, Lines, Whole, Rules.HeadOf, Rules.HeadAt, WroteIfDue, IsWrittenWhenDue, AtLineEnds;
    if |stream| == ck.off + |written| {
      seen := Hashed(ck, written, ownHead);
      HashedIsCounted(rules, ck, stream, written, ownHead, look);
    } else {
      var (after, ok) := Advanced(rules, ck, stream, look);
      LookLeaves(rules, ck, stream, look, after, ok);
      seen := after;
      if !ok { return; }
    }
    DueIsWritten(rules, seen, now, disk, next);
  }

  lemma HashedIsCounted(rules: Rules, ck: Ck, stream: Bytes, written: Bytes, ownHead: Option<string>, look: Look)
    requires AtLineEnds(rules, ck) && Unrewritten(ck, stream) && EndsWithLf(written)
    requires |stream| == ck.off + |written| && stream[ck.off..] == written
    ensures IsCounted(rules, ck, stream, written, ownHead, look, Hashed(ck, written, ownHead))
  {
    hide Rules.HeadOf;
    assert stream == ck.sum + written;
    LinesAppend(ck.sum, written);
    assert stream[..|stream|] == stream;
  }

  /** Closing, of the stream alone: it names the number of whole lines if the look succeeds, the
      last of them can be named as head, the record fits and the disk takes it; then the sidecar
      has that one record more. In every other case it names none, and a disk that takes
      everything shows no change. */
  lemma CloseNamesTheStream(
    rules: Rules, ck: Ck, stream: Bytes, look: Look, now: int, disk: Disk, next: Ck, named: Option<nat>)
    requires Exact(rules, ck) && Unrewritten(ck, stream)
    requires (next, named) == Closed(rules, ck, stream, look, now, disk)
    ensures IsClosing(rules, ck, stream, look, now, disk, next, named)
  {
    hide Advanced, Lines, Whole, Rules.HeadOf, Looked;
    var (seen, ok) := Advanced(rules, ck, stream, look);
    ExactAtLineEnds(rules, ck);
    LookLeaves(rules, ck, stream, look, seen, ok);
    if ok {
      HeadMeansLines(rules, ck, stream, look, seen);
      LookedIs(rules, ck, stream, look, seen);
    }
  }

  ghost predicate IsClosing(
    rules: Rules, ck: Ck, stream: Bytes, look: Look, now: int, disk: Disk, next: Ck, named: Option<nat>)
  {
    var head := HeadFound(rules, ck, stream, look);
    if !CanLook(ck, stream, look) || head.None? then named == None && SameSidecar(ck, next)
    else
      var f := Says(rules, ck, CloseKind, Lines(stream), head.value, stream[..Whole(stream)], now);
      && (named.Some? <==> Fits(rules, f) && disk.Writes?)
      && (named.Some? ==> named.value == Lines(stream) && Grew(rules, ck.(sum := next.sum, off := next.off, count := next.count, head := next.head), f, next))
      && (!Fits(rules, f) ==> SameSidecar(ck, next))
  }

  lemma ExactAtLineEnds(rules: Rules, ck: Ck)
    ensures Exact(rules, ck) ==> AtLineEnds(rules, ck)
  {
  }

  lemma LookedIs(rules: Rules, ck: Ck, stream: Bytes, look: Look, next: Ck)
    requires Looked(rules, ck, stream, look, next)
    ensures next.sum == stream[..Whole(stream)] && next.count == Lines(stream) && SameSidecar(ck, next)
    ensures next.head == HeadFound(rules, ck, stream, look)
  {
  }

  /** A state with a head has counted a line. */
  lemma HeadMeansLines(rules: Rules, ck: Ck, stream: Bytes, look: Look, next: Ck)
    requires Exact(rules, ck) && Looked(rules, ck, stream, look, next)
    ensures next.head.Some? ==> next.count != 0
  {
    NoHead(rules);
    WholePart(stream);
    ZeroLines(stream);
  }

  // --------------------------------------------------------------------- opening

  /** The line that ends at `k` can be named by a resume record: it is among the last 4096, its
      bytes can be read back, and it is an event. */
  ghost predicate CanBeNamed(rules: Rules, stream: Bytes, bad: set<nat>, k: nat) {
    && 0 < k <= |stream| && stream[k - 1] == LF
    && Lines(stream[..k]) !in bad && Lines(stream[..k]) + 4096 > Lines(stream)
    && IsWhole(stream[..k]) && rules.HeadOf(stream[..k]).Some?
  }

  /** It is the last line that can. */
  ghost predicate IsLastNamed(rules: Rules, stream: Bytes, bad: set<nat>, k: nat) {
    CanBeNamed(rules, stream, bad, k) && forall j: nat :: k < j <= |stream| ==> !CanBeNamed(rules, stream, bad, j)
  }

  lemma MarksOfMore(data: Bytes)
    requires data != []
    ensures Marks(data, 0, [], 0) == Marks(data[..|data| - 1], 0, [], 0) + EndMark(data, 0, [], 0)
    ensures |Marks(data, 0, [], 0)| == Lines(data) && |Marks(data[..|data| - 1], 0, [], 0)| == Lines(data[..|data| - 1])
  {
    MarksNonEmpty(data, 0, [], 0);
    MarksNonEmpty(data[..|data| - 1], 0, [], 0);
  }

  lemma EndMarkIs(data: Bytes)
    requires data != [] && data[|data| - 1] == LF
    ensures EndMark(data, 0, [], 0) == [Mark(Lines(data), Whole(data[..|data| - 1]), |data|, data)]
  {
    assert [] + data == data;
  }

  lemma PrefixLines(data: Bytes, k: nat)
    requires 0 < k <= |data| && data[k - 1] == LF
    ensures 0 < Lines(data[..k]) <= Lines(data)
  {
    assert data == data[..k] + data[k..];
    LinesAppend(data[..k], data[k..]);
    ZeroLines(data[..k]);
  }

  /** The mark of the line that ends at `k` is the one of its number. */
  lemma {:induction false} MarkAt(data: Bytes, k: nat)
    requires 0 < k <= |data| && data[k - 1] == LF
    ensures var n, marks := Lines(data[..k]), Marks(data, 0, [], 0);
            0 < n <= |marks| == Lines(data) && marks[n - 1] == Mark(n, Whole(data[..k - 1]), k, data[..k])
  {
    hide Marks, Lines, Whole, EndMark;
    MarksOfMore(data);
    PrefixLines(data, k);
    var front := data[..|data| - 1];
    if k == |data| {
      EndMarkIs(data);
      assert data[..k] == data && data[..k - 1] == front;
    } else {
      assert front[..k] == data[..k] && front[..k - 1] == data[..k - 1];
      MarkAt(front, k);
    }
  }

  lemma {:induction false} MarkEnds(data: Bytes, i: nat)
    requires i < |Marks(data, 0, [], 0)|
    ensures var m := Marks(data, 0, [], 0)[i];
            0 < m.end <= |data| && data[m.end - 1] == LF && Lines(data[..m.end]) == i + 1
  {
    MarksNonEmpty(data, 0, [], 0);
    var front := data[..|data| - 1];
    MarksNonEmpty(front, 0, [], 0);
    if i == |Marks(data, 0, [], 0)| - 1 && data[|data| - 1] == LF {
      assert data[..|data|] == data;
    } else {
      MarkEnds(front, i);
      assert front[..Marks(front, 0, [], 0)[i].end] == data[..Marks(front, 0, [], 0)[i].end];
    }
  }

  lemma {:induction false} NameableIsLast(rules: Rules, stream: Bytes, marks: seq<Mark>, bad: set<nat>) returns (i: nat)
    ensures match Nameable(rules, stream, marks, bad)
            case None => forall j :: 0 <= j < |marks| ==> marks[j].line in bad || rules.HeadAt(stream, marks[j]).None?
            case Some((m, h)) =>
              && i < |marks| && marks[i] == m && m.line !in bad && rules.HeadAt(stream, m) == Some(h)
              && forall j :: i < j < |marks| ==> marks[j].line in bad || rules.HeadAt(stream, marks[j]).None?
  {
    i := 0;
    if marks != [] {
      hide Rules.HeadAt;
      var m := marks[|marks| - 1];
      if m.line !in bad && rules.HeadAt(stream, m).Some? {
        i := |marks| - 1;
      } else {
        i := NameableIsLast(rules, stream, marks[..|marks| - 1], bad);
      }
    }
  }

  /** Reading a marked line back finds the head of the stream through it. */
  lemma HeadOfMarked(rules: Rules, stream: Bytes, k: nat)
    requires 0 < k <= |stream| && stream[k - 1] == LF
    ensures IsWhole(stream[..k])
    ensures rules.HeadAt(stream, Mark(Lines(stream[..k]), Whole(stream[..k - 1]), k, stream[..k])) == rules.HeadOf(stream[..k])
  {
    var d := stream[..k];
    assert d[..|d| - 1] == stream[..k - 1];
    assert LastLine(d) == stream[Whole(stream[..k - 1])..k - 1];
  }

  /** The kept marks are those of the last lines, each at its place. */
  lemma KeptMark(stream: Bytes, k: nat) returns (j: nat)
    requires 0 < k <= |stream| && stream[k - 1] == LF && Lines(stream[..k]) + 4096 > Lines(stream)
    ensures var marks := Scan(stream, 0, [], 0, RESUME_WINDOW).marks;
            && j < |marks| && marks[j] == Mark(Lines(stream[..k]), Whole(stream[..k - 1]), k, stream[..k])
            && Lines(stream[..k]) + |marks| == Lines(stream) + j + 1
  {
    hide Lines, Whole, Marks;
    assert stream[0..] == stream;
    MarkAt(stream, k);
    var all := Marks(stream, 0, [], 0);
    var dropped := if |all| <= RESUME_WINDOW then 0 else |all| - RESUME_WINDOW;
    j := Lines(stream[..k]) - 1 - dropped;
  }

  lemma KeptIsMark(stream: Bytes, j: nat) returns (k: nat)
    requires j < |Scan(stream, 0, [], 0, RESUME_WINDOW).marks|
    ensures 0 < k <= |stream| && stream[k - 1] == LF && Lines(stream[..k]) + 4096 > Lines(stream)
    ensures var marks := Scan(stream, 0, [], 0, RESUME_WINDOW).marks;
            && marks[j] == Mark(Lines(stream[..k]), Whole(stream[..k - 1]), k, stream[..k])
            && Lines(stream[..k]) + |marks| == Lines(stream) + j + 1
  {
    hide Lines, Whole, Marks;
    assert stream[0..] == stream;
    var all := Marks(stream, 0, [], 0);
    MarksNonEmpty(stream, 0, [], 0);
    var dropped := if |all| <= RESUME_WINDOW then 0 else |all| - RESUME_WINDOW;
    MarkEnds(stream, dropped + j);
    k := all[dropped + j].end;
    MarkAt(stream, k);
  }

  /** More whole lines count more. */
  lemma LinesGrow(stream: Bytes, k: nat, j: nat)
    requires 0 < k <= |stream| && 0 < j <= |stream| && stream[k - 1] == LF && stream[j - 1] == LF
    ensures k < j <==> Lines(stream[..k]) < Lines(stream[..j])
  {
    if k < j { MoreLines(stream, k, j); }
    if j < k { MoreLines(stream, j, k); }
  }

  lemma MoreLines(stream: Bytes, k: nat, j: nat)
    requires k < j <= |stream| && stream[j - 1] == LF
    ensures Lines(stream[..k]) < Lines(stream[..j])
  {
    assert stream[..j] == stream[..k] + stream[k..j];
    LinesAppend(stream[..k], stream[k..j]);
  }

  /** What is named at opening is the last line that can be, through which the stream is hashed;
      nothing is named exactly when no line can be. */
  lemma NamedIsLast(rules: Rules, stream: Bytes, bad: set<nat>) returns (k: nat)
    ensures match Nameable(rules, stream, Scan(stream, 0, [], 0, RESUME_WINDOW).marks, bad)
            case None => forall j: nat :: !CanBeNamed(rules, stream, bad, j)
            case Some((m, h)) =>
              && IsLastNamed(rules, stream, bad, k)
              && m.line == Lines(stream[..k]) && m.sum == stream[..k] && rules.HeadOf(stream[..k]) == Some(h)
  {
    hide Lines, Whole, Scan, Nameable, Rules.HeadAt, Rules.HeadOf;
    var marks := Scan(stream, 0, [], 0, RESUME_WINDOW).marks;
    var i := NameableIsLast(rules, stream, marks, bad);
    k := 0;
    var named := Nameable(rules, stream, marks, bad);
    if named.Some? {
      k := KeptIsMark(stream, i);
      HeadOfMarked(rules, stream, k);
    }
    forall j: nat | CanBeNamed(rules, stream, bad, j)
      ensures named.Some? && j <= k
    {
      var at := KeptMark(stream, j);
      HeadOfMarked(rules, stream, j);
      if named.Some? { LinesGrow(stream, k, j); }
    }
  }

  /** What the first record carries in place of a hash. */
  function NoRecord(): string { "sha256:" + seq(64, i => '0') }

  lemma GenesisIsNoRecord()
    ensures GENESIS == NoRecord()
  {
  }

  /** The state before any record: the whole lines of the stream, nothing waiting, and the chain
      after the last complete record of the sidecar. */
  ghost predicate IsFresh(rules: Rules, side: Bytes, stream: Bytes, bad: set<nat>, now: int, ck: Ck) {
    var done, kept := stream[..Whole(stream)], side[..Whole(side)];
    && IsWhole(done) && IsWhole(kept)
    && ck.sum == done && ck.off == |done| && ck.count == Lines(stream)
    && ck.head == (if Lines(stream) in bad then None else rules.HeadOf(done))
    && ck.sidecar == kept && ck.sidecarLen == |kept|
    && ck.prev == (if kept == [] then NoRecord() else rules.hash(LastLine(kept)))
    && ck.pending == 0 && ck.lastAt == now
  }

  lemma ResumedIsFresh(rules: Rules, side: Bytes, stream: Bytes, bad: set<nat>, now: int)
    ensures IsFresh(rules, side, stream, bad, now, Resumed(rules, side, stream, bad, now))
  {
    hide Lines, Whole, Marks, Rules.HeadAt, Rules.HeadOf, Rules.TailHash;
    var done, s := stream[..Whole(stream)], Scan(stream, 0, [], 0, RESUME_WINDOW);
    assert stream[0..] == stream && [] + done == done;
    NoHead(rules);
    GenesisIsNoRecord();
    TailHashIs(rules, side[..Whole(side)]);
    ScanIsExact(rules, stream, [], 0, RESUME_WINDOW);
    ScanSum(stream, 0, [], 0, RESUME_WINDOW);
    WholePart(stream);
    WholePart(side);
    ZeroLines(stream);
    if s.marks != [] {
      var k := KeptIsMark(stream, |s.marks| - 1);
      assert s.marks[|s.marks| - 1].line == Lines(stream);
    } else {
      assert done == [] && rules.HeadOf(done) == None;
    }
  }

  lemma TailHashIs(rules: Rules, side: Bytes)
    ensures IsWhole(side) ==> rules.TailHash(side) == if side == [] then GENESIS else rules.hash(LastLine(side))
  {
  }

  /** Opening, of the stream and the sidecar alone. It is refused when the sidecar is not one of
      this writer's, when the stream cannot be read, or when the resume record asked for cannot
      be written; that record names the last line that can be named. */
  ghost predicate IsOpening(
    rules: Rules, side: Bytes, stream: Bytes, unchained: bool, scanFails: bool, bad: set<nat>, now: int, disk: Disk,
    opening: Opening)
  {
    if |side| > 0x100_0000 && Lines(side[|side| - 0x100_0000..]) < 2 then opening == Refused(side)
    else if scanFails then opening == Refused(side[..Whole(side)])
    else exists ck :: IsFresh(rules, side, stream, bad, now, ck) && IsOpenedFrom(rules, stream, unchained, bad, now, disk, ck, opening)
  }

  ghost predicate IsOpenedFrom(
    rules: Rules, stream: Bytes, unchained: bool, bad: set<nat>, now: int, disk: Disk, ck: Ck, opening: Opening)
  {
    if !unchained || forall k: nat :: !CanBeNamed(rules, stream, bad, k) then opening == Opened(ck)
    else exists k: nat :: IsResumed(rules, stream, bad, now, disk, ck, k, opening)
  }

  ghost predicate IsResumed(
    rules: Rules, stream: Bytes, bad: set<nat>, now: int, disk: Disk, ck: Ck, k: nat, opening: Opening)
  {
    IsLastNamed(rules, stream, bad, k)
    && var f := Says(rules, ck, ResumeKind, Lines(stream[..k]), rules.HeadOf(stream[..k]).value, stream[..k], now);
       if Fits(rules, f) && disk.Writes? then opening.Opened? && Grew(rules, ck, f, opening.ck)
       else opening.Refused? && (!Fits(rules, f) ==> opening.sidecar == ck.sidecar)
  }

  lemma OpeningNamesTheLastEvent(
    rules: Rules, side: Bytes, stream: Bytes, unchained: bool, scanFails: bool, bad: set<nat>, now: int, disk: Disk,
    opening: Opening)
    requires opening == Opens(rules, side, stream, unchained, scanFails, bad, now, disk)
    ensures IsOpening(rules, side, stream, unchained, scanFails, bad, now, disk, opening)
  {
    hide Lines, Whole, Scan, Nameable, Rules.HeadAt, Rules.HeadOf, IsFresh, Resumed, CanBeNamed;
    var ck := Resumed(rules, side, stream, bad, now);
    ResumedIsFresh(rules, side, stream, bad, now);
    FreshSidecar(rules, side, stream, bad, now, ck);
    if !UnlikeOurs(side) && !scanFails {
      var k := NamedIsLast(rules, stream, bad);
      NamedMeansLines(rules, stream, bad);
      assert unchained && IsLastNamed(rules, stream, bad, k) ==> IsResumed(rules, stream, bad, now, disk, ck, k, opening) by {
        if IsLastNamed(rules, stream, bad, k) { LastIsNamed(rules, stream, bad, k); }
      }
      assert IsOpenedFrom(rules, stream, unchained, bad, now, disk, ck, opening);
    }
  }

  lemma FreshSidecar(rules: Rules, side: Bytes, stream: Bytes, bad: set<nat>, now: int, ck: Ck)
    requires IsFresh(rules, side, stream, bad, now, ck)
    ensures ck.sidecar == side[..Whole(side)] && ck.count == Lines(stream)
  {
  }

  lemma LastIsNamed(rules: Rules, stream: Bytes, bad: set<nat>, k: nat)
    ensures IsLastNamed(rules, stream, bad, k) ==> k <= |stream| && IsWhole(stream[..k]) && rules.HeadOf(stream[..k]).Some?
  {
  }

  lemma NamedMeansLines(rules: Rules, stream: Bytes, bad: set<nat>)
    ensures Lines(stream) == 0 ==> forall k: nat :: !CanBeNamed(rules, stream, bad, k)
  {
    forall k: nat | CanBeNamed(rules, stream, bad, k) ensures Lines(stream) > 0 {
      PrefixLines(stream, k);
    }
  }
}
