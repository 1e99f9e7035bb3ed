/** What the checkpoint writer of checkpoint.dfy keeps, step by step and over whole runs. */
module CheckpointRuns {
  import opened Wrappers
  import opened Stream
  import opened Checkpoint

  // ------------------------------------- one line boundary, whatever the stream does

  /** Bytes hashed, offset, lines counted and head all describe one line boundary. */
  ghost predicate Exact(rules: Rules, ck: Ck) {
    && IsWhole(ck.sum)
    && ck.off == |ck.sum|
    && ck.count == Lines(ck.sum)
    && (ck.head.Some? ==> ck.head == rules.HeadOf(ck.sum))
  }

  lemma LastLineAppends(a: Bytes, b: Bytes)
    requires IsWhole(a) && IsWhole(b) && b != []
    ensures IsWhole(a + b) && LastLine(a + b) == LastLine(b)
  {
    var front := b[..|b| - 1];
    assert (a + b)[..|a + b| - 1] == a + front;
    LinesAppend(a, b);
    LinesAppend(a, front);
    ZeroLines(b);
    assert (a + b)[|a| + Whole(front)..|a + b| - 1] == b[Whole(front)..|b| - 1];
  }

  /** What a scan of more bytes from a boundary finds: the bytes through the last line
      feed, and for its last mark the last line of them. */
  lemma ScanIsExact(rules: Rules, stream: Bytes, sum: Bytes, from: nat, keep: nat)
    requires from <= |stream| && IsWhole(sum) && keep > 0
    ensures var s := Scan(stream, from, sum, Lines(sum), keep);
            && IsWhole(s.sum) && s.count == Lines(s.sum)
            && (s.marks == [] <==> s.count == Lines(sum))
            && (s.marks != [] ==> rules.HeadAt(stream, s.marks[|s.marks| - 1]) == rules.HeadOf(s.sum))
            && (s.count == Lines(sum) ==> s.sum == sum)
  {
    hide Lines, Whole, Marks;
    var data := stream[from..];
    var found := data[..Whole(data)];
    WholePart(data);
    ZeroLines(data);
    LinesAppend(sum, found);
    ZeroLines(found);
    MarksNonEmpty(data, from, sum, Lines(sum));
    if Lines(data) > 0 {
      LastLineAppends(sum, found);
      LastMark(rules, stream, sum, from);
    }
  }

  /** The last mark names the last line. */
  lemma {:induction false} LastMark(rules: Rules, stream: Bytes, sum: Bytes, from: nat)
    requires from <= |stream| && IsWhole(sum) && Lines(stream[from..]) > 0
    ensures var data := stream[from..];
            var marks := Marks(data, from, sum, Lines(sum));
            && |marks| > 0 && IsWhole(data[..Whole(data)]) && data[..Whole(data)] != []
            && marks[|marks| - 1].end == from + Whole(data)
            && rules.HeadAt(stream, marks[|marks| - 1]) == rules.HeadOfLine(LastLine(data[..Whole(data)]))
  {
    hide Lines, Whole, Marks;
    var data := stream[from..];
    WholePart(data);
    ZeroLines(data);
    MarkOfLast(data, from, sum, Lines(sum));
    MarkedLine(stream, from, Whole(data));
  }

  lemma MarkedLine(stream: Bytes, from: nat, end: nat)
    requires from + end <= |stream| && 0 < end && IsWhole(stream[from..][..end])
    ensures var d := stream[from..][..end];
            var start := Whole(d[..|d| - 1]);
            start < end && stream[from + start..from + end - 1] == LastLine(d)
  {
    hide Whole;
  }

  lemma {:induction false} MarkOfLast(data: Bytes, start: nat, sum: Bytes, count: nat)
    requires Lines(data) > 0
    ensures var marks := Marks(data, start, sum, count);
            var d := data[..Whole(data)];
            && Whole(data) > 0 && |marks| > 0
            && marks[|marks| - 1].end == start + Whole(data)
            && marks[|marks| - 1].start == start + Whole(d[..|d| - 1])
  {
    var front := data[..|data| - 1];
    if data[|data| - 1] == LF {
      assert data[..|data|] == data;
    } else {
      MarkOfLast(front, start, sum, count);
      assert data[..Whole(front)] == front[..Whole(front)];
    }
  }

  /** Reading on leaves an exact state exact, whatever the stream has become and whichever
      reads fail. */
  lemma AdvancedIsExact(rules: Rules, ck: Ck, stream: Bytes, look: Look)
    requires Exact(rules, ck)
    ensures Exact(rules, Advanced(rules, ck, stream, look).0)
  {
    hide Lines, Whole, Marks, Scan, Rules.HeadAt, Rules.HeadOf;
    var from := if |stream| < ck.off then ck.(sum := [], off := 0, count := 0, head := None) else ck;
    NoLines();
    ScanIsExact(rules, stream, from.sum, from.off, 1);
    ScanSum(stream, from.off, from.sum, Lines(from.sum), 1);
  }

  lemma NoLines()
    ensures IsWhole([]) && Lines([]) == 0
  {
  }

  lemma ScanSum(stream: Bytes, from: nat, sum: Bytes, count: nat, keep: nat)
    requires from <= |stream|
    ensures var s := Scan(stream, from, sum, count, keep);
            s.off == from + Whole(stream[from..]) && s.sum == sum + stream[from..][..Whole(stream[from..])]
            && |s.sum| == |sum| + s.off - from
            && s.count == count + Lines(stream[from..])
  {
  }

  /** The fast path hashes what was written without reading it back. It leaves the state
      exact if and only if the head it was handed is the head a reader of the stream would
      take; the length cap on a line is not checked there (checkpoint.rs:733). */
  lemma HashedIsExact(rules: Rules, ck: Ck, written: Bytes, ownHead: Option<string>)
    requires Exact(rules, ck) && EndsWithLf(written)
    ensures IsWhole(written)
    ensures Exact(rules, Hashed(ck, written, ownHead))
       <==> ownHead.None? || ownHead == rules.HeadOfLine(LastLine(written))
  {
    hide Lines;
    LastLineAppends(ck.sum, written);
    LinesAppend(ck.sum, written);
  }

  /** For an event's own line and its own hash, that is the line cap: the state stays exact if
      and only if the last line written is no longer than a reader accepts. */
  lemma OwnLineUnderTheCap(rules: Rules, ck: Ck, written: Bytes)
    requires Exact(rules, ck) && EndsWithLf(written)
    requires IsWhole(written) && rules.event(LastLine(written)).Some?
    ensures Exact(rules, Hashed(ck, written, rules.event(LastLine(written)))) <==> |LastLine(written)| <= 4 * 1024 * 1024
  {
    hide Lines, Exact, Whole, LastLine;
    HashedIsExact(rules, ck, written, rules.event(LastLine(written)));
  }

  /** A line over the cap that its own exporter appended is named as head, although no
      reader would name it. */
  lemma LongOwnLineIsNamed(rules: Rules, line: Bytes, head: string)
    requires |line| > LINE_CAP && Lines(line) == 0
    ensures var ck := Hashed(Ck([], 0, 0, None, GENESIS, 0, 0, [], 0), line + [LF], Some(head));
            ck.head == Some(head) && IsWhole(ck.sum) && rules.HeadOf(ck.sum) == None
  {
    hide Lines;
    var written := line + [LF];
    assert [] + written == written;
    assert written[..|written| - 1] == line;
    ZeroLines(line);
    assert LastLine(written) == line;
  }

  /** Every operation keeps the state exact. */
  lemma AppendedIsExact(
    rules: Rules, ck: Ck, stream: Bytes, lenFails: bool, written: Bytes, ownHead: Option<string>,
    look: Look, now: int, disk: Disk)
    requires Exact(rules, ck)
    requires !lenFails && GrewBy(ck, stream, written) && ownHead.Some? ==>
               IsWhole(written) && ownHead == rules.HeadOfLine(LastLine(written))
    ensures Exact(rules, Appended(rules, ck, stream, lenFails, written, ownHead, look, now, disk))
  {
    hide Advanced, Lines, Whole;
    if !lenFails && GrewBy(ck, stream, written) {
      HashedIsExact(rules, ck, written, ownHead);
    } else {
      AdvancedIsExact(rules, ck, stream, look);
    }
  }

  // --------------------------------------------- and it is the observed stream's

  /** What the writer relies on when it looks: bytes it has hashed are not rewritten while
      the stream stays at least as long as them. */
  predicate Unrewritten(ck: Ck, stream: Bytes) {
    |stream| < ck.off || ck.sum <= stream
  }

  /** A look that succeeds leaves the hash at the stream's last line end, if and only if
      the bytes hashed before were not rewritten under it. */
  lemma AdvancedCatchesUp(rules: Rules, ck: Ck, stream: Bytes, look: Look)
    requires Exact(rules, ck) && Advanced(rules, ck, stream, look).1
    ensures Advanced(rules, ck, stream, look).0.sum == stream[..Whole(stream)] <==> Unrewritten(ck, stream)
    ensures Unrewritten(ck, stream) ==> Advanced(rules, ck, stream, look).0.count == Lines(stream)
  {
    hide Lines, Whole, Marks, Scan, Rules.HeadAt, Rules.HeadOf;
    var base := if |stream| < ck.off then [] else ck.sum;
    var from := |base|;
    var next := Advanced(rules, ck, stream, look).0;
    var rest := stream[from..];
    NoLines();
    ScanSum(stream, from, base, Lines(base), 1);
    assert next.sum == base + rest[..Whole(rest)];
    assert next.count == Lines(base) + Lines(rest);
    if base <= stream {
      assert stream == base + rest;
      LinesAppend(base, rest);
      ZeroLines(rest);
      assert stream[..from + Whole(rest)] == base + rest[..Whole(rest)];
    } else {
      StartsWith(base, rest[..Whole(rest)], stream, Whole(stream));
    }
  }

  lemma StartsWith(base: Bytes, more: Bytes, stream: Bytes, k: nat)
    requires k <= |stream|
    ensures base + more == stream[..k] ==> base <= stream
  {
    assert base <= base + more;
  }

  /** A look of any kind leaves the hash at a prefix of the stream under the same premise. */
  lemma AdvancedIsPrefix(rules: Rules, ck: Ck, stream: Bytes, look: Look)
    requires Exact(rules, ck) && Unrewritten(ck, stream)
    ensures var next := Advanced(rules, ck, stream, look).0; next.sum <= stream || next == ck
  {
    hide Lines, Whole, Marks, Scan, Rules.HeadAt, Rules.HeadOf;
    if Advanced(rules, ck, stream, look).1 {
      AdvancedCatchesUp(rules, ck, stream, look);
    }
  }

  /** After an own append the writer's state is the stream's, if and only if: on the fast
      path, what the stream gained is what was written after the bytes hashed before;
      otherwise, those bytes were not rewritten. */
  lemma AppendedIsFaithful(
    rules: Rules, ck: Ck, stream: Bytes, written: Bytes, ownHead: Option<string>, now: int, disk: Disk)
    requires Exact(rules, ck)
    ensures var next := Appended(rules, ck, stream, false, written, ownHead, Look(false, false, false), now, disk);
            next.sum <= stream <==>
              if GrewBy(ck, stream, written) then ck.sum <= stream && stream[ck.off..] == written
              else Unrewritten(ck, stream)
  {
    hide Lines, Whole, Advanced, Rules.HeadOf;
    var look := Look(false, false, false);
    if GrewBy(ck, stream, written) {
      if ck.sum + written <= stream {
        assert stream[..|ck.sum|] == ck.sum && stream[|ck.sum|..] == written;
      }
    } else {
      LookSucceeds(rules, ck, stream);
      AdvancedCatchesUp(rules, ck, stream, look);
      if |stream| >= ck.off { AdvancedExtends(rules, ck, stream, look); }
    }
  }

  lemma LookSucceeds(rules: Rules, ck: Ck, stream: Bytes)
    ensures Advanced(rules, ck, stream, Look(false, false, false)).1
  {
  }

  /** What was hashed stays hashed unless the stream is seen to be shorter. */
  lemma AdvancedExtends(rules: Rules, ck: Ck, stream: Bytes, look: Look)
    requires Exact(rules, ck) && |stream| >= ck.off
    ensures ck.sum <= Advanced(rules, ck, stream, look).0.sum
  {
    hide Lines, Whole, Marks, Scan, Rules.HeadAt, Rules.HeadOf;
    ScanSum(stream, ck.off, ck.sum, ck.count, 1);
  }

  /** The case the length alone does not show: the stream is cut by as many bytes as the
      next lookless read will find, here by one line that another writer puts back in other
      words. The state then describes bytes that no stream held. */
  lemma EqualRegrowthGoesUnseen(rules: Rules)
    ensures var ck := Ck([65, LF], 2, 1, None, GENESIS, 0, 0, [], 0);
            && Exact(rules, ck)
            && Appended(rules, ck, [66, LF], false, [66, LF], None, Look(false, false, false), 0, Writes).sum == [65, LF]
  {
    assert Lines([65, LF][..1]) == 0;
    assert Lines([65, LF]) == 1;
  }

  // --------------------------------------------------------------- the sidecar

  /** The record covers the whole lines `s`: it counts them, names the last as head and
      carries their hash. */
  ghost predicate Covers(rules: Rules, f: Fields, s: Bytes) {
    IsWhole(s) && f.count == Lines(s) && rules.HeadOf(s) == Some(f.head) && f.prefix == rules.hash(s)
  }

  /** The record is true of the stream: it covers its first lines, up to some line end. */
  ghost predicate TrueOf(rules: Rules, f: Fields, stream: Bytes) {
    exists k: nat :: k <= |stream| && Covers(rules, f, stream[..k])
  }

  /** A line of the sidecar is a record that follows the hash `prev`, and one of `told`. */
  ghost predicate IsRecord(rules: Rules, line: Bytes, prev: string, told: iset<Fields>) {
    exists f :: f in told && rules.encode(f) == Some(line) && |line| <= RECORD_CAP && f.prev == prev
  }

  /** The lines before the last of some whole lines. */
  function Before(s: Bytes): (b: Bytes)
    requires IsWhole(s) && s != []
    ensures IsWhole(b) && |b| < |s| && s == b + LastLine(s) + [LF] && Lines(LastLine(s)) == 0
  {
    assert s[|s| - 1] == LF && s[..|s|] == s;
    WholePart(s[..|s| - 1]);
    assert s[..|s| - 1][..Whole(s[..|s| - 1])] == s[..Whole(s[..|s| - 1])];
    assert s[..|s| - 1][Whole(s[..|s| - 1])..] == LastLine(s);
    s[..Whole(s[..|s| - 1])]
  }

  /** The sidecar is one hash chain: every line is a record, the first carries the genesis
      value and each later one the hash of the record before it. */
  ghost predicate Chained(rules: Rules, side: Bytes, told: iset<Fields>) {
    IsWhole(side)
    && (side == [] || (IsRecord(rules, LastLine(side), rules.TailHash(Before(side)), told)
                       && Chained(rules, Before(side), told)))
  }

  /** The bytes a torn append may leave after the records `done`. */
  ghost predicate TornRecord(rules: Rules, torn: Bytes, done: Bytes, told: iset<Fields>)
    requires IsWhole(done)
  {
    torn == []
    || exists line :: torn <= line + [LF] && Lines(line) == 0 && IsRecord(rules, line, rules.TailHash(done), told)
  }

  /** A sidecar file: `len` bytes of chained records, and what a torn append left. */
  ghost predicate SideAt(rules: Rules, side: Bytes, len: nat, told: iset<Fields>) {
    && len <= |side|
    && Chained(rules, side[..len], told)
    && TornRecord(rules, side[len..], side[..len], told)
  }

  /** What the writer knows of its sidecar, torn end or not. */
  ghost predicate SideKept(rules: Rules, ck: Ck, told: iset<Fields>) {
    SideAt(rules, ck.sidecar, ck.sidecarLen, told) && ck.prev == rules.TailHash(ck.sidecar[..ck.sidecarLen])
  }

  /** No torn end: the writer may append. */
  predicate Clean(ck: Ck) { ck.sidecarLen == |ck.sidecar| }

  lemma BeforeAppended(side: Bytes, line: Bytes)
    requires IsWhole(side) && Lines(line) == 0
    ensures var more := side + line + [LF];
            IsWhole(more) && LastLine(more) == line && Before(more) == side
  {
    hide Lines;
    var more := side + line + [LF];
    assert more[..|more| - 1] == side + line;
    LinesAppend(side, line);
    ZeroLines(line);
    assert more[..|side|] == side;
    assert more[|side|..|more| - 1] == line;
  }

  /** One more record keeps the chain. */
  lemma ChainGrows(rules: Rules, side: Bytes, line: Bytes, told: iset<Fields>)
    requires Chained(rules, side, told) && Lines(line) == 0
    requires IsRecord(rules, line, rules.TailHash(side), told)
    ensures Chained(rules, side + line + [LF], told)
    ensures rules.TailHash(side + line + [LF]) == rules.hash(line)
  {
    hide IsRecord, Lines, Whole, LastLine, Before;
    BeforeAppended(side, line);
  }

  /** Writing a record keeps the chain, whether the append goes through or tears, and
      whether or not the torn bytes can be cut off. */
  lemma WroteKeepsChain(
    rules: Rules, ck: Ck, kind: Kind, count: nat, head: string, prefix: string, now: int, disk: Disk, told: iset<Fields>)
    requires rules.EncodesLines()
    requires SideKept(rules, ck, told) && Clean(ck)
    requires Fields(kind, count, head, prefix, now, ck.prev) in told
    ensures SideKept(rules, Wrote(rules, ck, kind, count, head, prefix, now, disk).0, told)
  {
    hide Chained, Lines, Rules.TailHash;
    var f := Fields(kind, count, head, prefix, now, ck.prev);
    var done := ck.sidecar[..ck.sidecarLen];
    assert done == ck.sidecar;
    ChainedIsWhole(rules, done, told);
    if rules.encode(f).Some? && |rules.encode(f).value| <= RECORD_CAP {
      var record := rules.encode(f).value;
      var line := record + [LF];
      NoLineFeed(record);
      assert IsRecord(rules, record, rules.TailHash(done), told);
      match disk
      case Writes =>
        ChainGrows(rules, done, record, told);
        Glue(done, record, [LF]);
        WholeSlice(done + line);
      case Tears(kept, cut) =>
        var torn := if kept <= |line| then line[..kept] else line;
    }
  }

  lemma WholeSlice<T>(s: seq<T>)
    ensures s[..|s|] == s && s[|s|..] == []
  {
  }

  /** Dying in the middle of an append and opening again goes on from the same chain: what
      is kept is the records before the torn one, or that one too if it got through. */
  lemma ReopenKeepsChain(rules: Rules, side: Bytes, len: nat, told: iset<Fields>)
    requires SideAt(rules, side, len, told)
    ensures var tail := TailOf(rules, side);
            && len <= tail.complete <= |side|
            && Chained(rules, side[..tail.complete], told)
            && tail.prev == rules.TailHash(side[..tail.complete])
  {
    hide Chained, IsRecord, Lines, Whole, Rules.TailHash;
    var done, torn := side[..len], side[len..];
    Parts(side, len);
    ChainedIsWhole(rules, done, told);
    if torn == [] {
      WholeSlice(side);
      assert Whole(side) == |done|;
    } else {
      var line :| torn <= line + [LF] && Lines(line) == 0 && IsRecord(rules, line, rules.TailHash(done), told);
      TornEnd(done, torn, line);
      if torn == line + [LF] {
        ChainGrows(rules, done, line, told);
        Glue(done, line, [LF]);
        WholeSlice(side);
      }
    }
  }

  lemma ChainedIsWhole(rules: Rules, side: Bytes, told: iset<Fields>)
    ensures Chained(rules, side, told) ==> IsWhole(side)
  {
  }

  lemma Parts<T>(s: seq<T>, k: nat)
    ensures k <= |s| ==> s == s[..k] + s[k..]
  {
  }

  lemma TornEnd(done: Bytes, torn: Bytes, line: Bytes)
    requires IsWhole(done) && torn <= line + [LF] && Lines(line) == 0
    ensures Whole(done + torn) == if torn == line + [LF] then |done + torn| else |done|
  {
    hide Lines, Whole;
    if torn == line + [LF] {
      BeforeAppended(done, line);
      Glue(done, line, [LF]);
    } else {
      assert |torn| <= |line| && torn == line[..|torn|];
      Parts(line, |torn|);
      assert line == torn + line[|torn|..];
      LinesAppend(torn, line[|torn|..]);
      LinesAppend(done, torn);
    }
  }

  /** Opening never takes a sidecar this writer left for somebody else's: the search always
      finds its last record. */
  lemma OursIsFound(rules: Rules, side: Bytes, len: nat, told: iset<Fields>)
    requires SideAt(rules, side, len, told)
    ensures !UnlikeOurs(side)
  {
    hide Lines, Whole, IsRecord, Rules.TailHash, Rules.HeadOf;
    var done, torn := side[..len], side[len..];
    Parts(side, len);
    TornIsShort(rules, torn, done, told);
    if |side| > SIDECAR_TAIL_CAP {
      LineIsShort(rules, LastLine(done), rules.TailHash(Before(done)), told);
      var before := Before(done);
      assert Chained(rules, before, told) && before != [];
      LineIsShort(rules, LastLine(before), rules.TailHash(Before(before)), told);
      var b := Before(before);
      var k := |side| - SIDECAR_TAIL_CAP;
      TwoEnds(b, LastLine(before), LastLine(done), torn, k);
    }
  }

  lemma TornIsShort(rules: Rules, torn: Bytes, done: Bytes, told: iset<Fields>)
    requires IsWhole(done) && TornRecord(rules, torn, done, told)
    ensures |torn| <= RECORD_CAP + 1
  {
    hide Lines, Whole, Rules.TailHash;
  }

  lemma LineIsShort(rules: Rules, line: Bytes, prev: string, told: iset<Fields>)
    requires IsRecord(rules, line, prev, told)
    ensures |line| <= RECORD_CAP
  {
  }

  /** Two lines and what follows them hold two line ends from any point in the first. */
  lemma TwoEnds(b: Bytes, one: Bytes, two: Bytes, torn: Bytes, k: nat)
    requires k <= |b + one|
    ensures var all := b + one + [LF] + two + [LF] + torn; k <= |all| && Lines(all[k..]) >= 2
  {
    hide Lines;
    var all := b + one + [LF] + two + [LF] + torn;
    var rest := (b + one)[k..];
    assert all[k..] == rest + [LF] + two + [LF] + torn;
    LinesAppend(rest + [LF] + two + [LF], torn);
    LinesAppend(rest + [LF] + two, [LF]);
    LinesAppend(rest + [LF], two);
    LinesAppend(rest, [LF]);
    OneEnd();
  }

  lemma OneEnd()
    ensures Lines([LF]) == 1
  {
    assert [LF][..0] == [];
  }

  /** No two texts have one hash. */
  ghost predicate Injective(rules: Rules) { forall a, b :: rules.hash(a) == rules.hash(b) ==> a == b }

  /** If torn bytes could not be cut off, the next record written is glued to them, and the
      one after it names a line that is not there. With an injective hash, what a reader
      finds then is a chain if and only if there were no torn bytes. Torn bytes are less than
      a line, and hold no line feed. */
  lemma UncutBytesBreakTheChain(rules: Rules, ck: Ck, torn: Bytes, one: Fields, two: Fields)
    requires rules.EncodesLines() && Injective(rules)
    requires ReadsAsChain(rules, ck.sidecar) && Clean(ck) && ck.prev == rules.TailHash(ck.sidecar)
    requires Lines(torn) == 0
    requires WroteFields(rules, ck.(sidecar := ck.sidecar + torn), one).1
    requires WroteFields(rules, WroteFields(rules, ck.(sidecar := ck.sidecar + torn), one).0, two).1
    ensures var after := WroteFields(rules, WroteFields(rules, ck.(sidecar := ck.sidecar + torn), one).0, two).0;
            ReadsAsChain(rules, after.sidecar) <==> torn == []
  {
    hide Lines, Whole, LastLine, ReadsAsChain;
    assert IsWhole(ck.sidecar) by { ReadsWhole(rules, ck.sidecar); }
    var c0 := ck.(sidecar := ck.sidecar + torn);
    var c1 := WroteFields(rules, c0, one).0;
    var r1 := rules.encode(one.(prev := ck.prev)).value;
    var r2 := rules.encode(two.(prev := rules.hash(r1))).value;
    NoLineFeed(r1);
    NoLineFeed(r2);
    LinesAppend(torn, r1);
    Glue(ck.sidecar, torn, r1 + [LF]);
    Glue(torn, r1, [LF]);
    Glue(ck.sidecar, torn + r1, [LF]);
    assert c1.sidecar == ck.sidecar + (torn + r1) + [LF];
    ReadsOneMore(rules, ck.sidecar, torn + r1);
    Glue(c1.sidecar, r2, [LF]);
    ReadsOneMore(rules, c1.sidecar, r2);
    assert torn == [] ==> torn + r1 == r1;
    assert |torn + r1| == |torn| + |r1|;
  }

  function WroteFields(rules: Rules, ck: Ck, f: Fields): (Ck, bool) {
    Wrote(rules, ck, f.kind, f.count, f.head, f.prefix, f.at, Writes)
  }

  // ---------------------------------------------------------------- whole runs

  datatype Proc = Up(ck: Ck) | Down(side: Bytes)

  /** What the writer hands to its sidecar: a record, the bytes it was made from, which of the
      stream's contents was there at the time, and whether it had looked. */
  datatype Note = Note(fields: Fields, hashed: Bytes, when: nat, looked: bool)

  /** Every content the stream has had, the present one last, the writer, and all it has
      ever handed to its sidecar. */
  datatype World = World(past: seq<Bytes>, proc: Proc, notes: seq<Note>) {
    function Stream(): Bytes
      requires past != []
    {
      past[|past| - 1]
    }
  }

  /** `Turns`: somebody appends to the stream, cuts it or rewrites it. `Own`: the exporter
      has appended, and the stream is now `to`. `Dies`: the process ends where it is. */
  datatype Step =
    | Turns(to: Bytes)
    | Own(to: Bytes, written: Bytes, ownHead: Option<string>, lenFails: bool, look: Look, now: int, disk: Disk)
    | Tick(now: int, disk: Disk)
    | Close(look: Look, now: int, disk: Disk)
    | Dies
    | Reopens(unchained: bool, scanFails: bool, bad: set<nat>, now: int, disk: Disk)

  function Moved(rules: Rules, w: World, step: Step): (next: World)
    requires w.past != []
    ensures w.past <= next.past && next.past != [] && next.notes == w.notes
  {
    match (step, w.proc)
    case (Turns(to), _) => w.(past := w.past + [to])
    case (Own(to, written, ownHead, lenFails, look, now, disk), Up(ck)) =>
      w.(past := w.past + [to], proc := Up(Appended(rules, ck, to, lenFails, written, ownHead, look, now, disk)))
    case (Tick(now, disk), Up(ck)) => w.(proc := Up(WroteIfDue(rules, ck, now, disk)))
    case (Close(look, now, disk), Up(ck)) => w.(proc := Up(Closed(rules, ck, w.Stream(), look, now, disk).0))
    case (Dies, Up(ck)) => w.(proc := Down(ck.sidecar))
    case (Reopens(unchained, scanFails, bad, now, disk), Down(side)) =>
      (match Opens(rules, side, w.Stream(), unchained, scanFails, bad, now, disk)
       case Opened(ck) => w.(proc := Up(ck))
       case Refused(left) => w.(proc := Down(left)))
    case _ => w
  }

  function NoteOf(rules: Rules, ck: Ck, kind: Kind, now: int, when: nat, looked: bool): Note
    requires ck.head.Some?
  {
    Note(Fields(kind, ck.count, ck.head.value, rules.hash(ck.sum), now, ck.prev), ck.sum, when, looked)
  }

  function ResumeNote(
    rules: Rules, side: Bytes, stream: Bytes, unchained: bool, scanFails: bool, bad: set<nat>, now: int, when: nat): seq<Note>
  {
    var ck := Resumed(rules, side, stream, bad, now);
    var named := Nameable(rules, stream, Scan(stream, 0, [], 0, RESUME_WINDOW).marks, bad);
    if UnlikeOurs(side) || scanFails || !unchained || ck.count == 0 || named.None? then []
    else
      var (m, h) := named.value;
      [Note(Fields(ResumeKind, m.line, h, rules.hash(m.sum), now, ck.prev), m.sum, when, true)]
  }

  /** What a step hands to the sidecar, whether or not it gets there whole. */
  function Handed(rules: Rules, w: World, step: Step): seq<Note>
    requires w.past != []
  {
    match (step, w.proc)
    case (Own(to, written, ownHead, lenFails, look, now, _), Up(ck)) =>
      var (next, ok) := CaughtUp(rules, ck, to, lenFails, written, ownHead, look);
      if ok && IsDue(next, now) then [NoteOf(rules, next, PeriodicKind, now, |w.past|, true)] else []
    case (Tick(now, _), Up(ck)) =>
      if IsDue(ck, now) then [NoteOf(rules, ck, PeriodicKind, now, |w.past| - 1, false)] else []
    case (Close(look, now, _), Up(ck)) =>
      var (next, ok) := Advanced(rules, ck, w.Stream(), look);
      if ok && CanClose(next) then [NoteOf(rules, next, CloseKind, now, |w.past| - 1, true)] else []
    case (Reopens(unchained, scanFails, bad, now, _), Down(side)) =>
      ResumeNote(rules, side, w.Stream(), unchained, scanFails, bad, now, |w.past| - 1)
    case _ => []
  }

  function Next(rules: Rules, w: World, step: Step): (next: World)
    requires w.past != []
    ensures w.past <= next.past && next.past != []
  {
    Moved(rules, w, step).(notes := w.notes + Handed(rules, w, step))
  }

  function Run(rules: Rules, w: World, steps: seq<Step>): (end: World)
    requires w.past != []
    ensures w.past <= end.past && end.past != []
    decreases |steps|
  {
    if steps == [] then w else Run(rules, Next(rules, w, steps[0]), steps[1..])
  }

  /** The premises of a step: hashed bytes are not rewritten under a look (and what the
      fast path takes for its own bytes are its own), the head handed over is the line's,
      and after a torn append that could not be cut off the process opens again before it
      writes. Nothing is asked of a tick's stream. */
  ghost predicate Allowed(rules: Rules, w: World, step: Step)
    requires w.past != []
  {
    match (step, w.proc)
    case (Own(to, written, ownHead, _, _, _, _), Up(ck)) =>
      && Clean(ck) && Unrewritten(ck, to)
      && (GrewBy(ck, to, written) ==> to[ck.off..] == written)
      && OwnHeadIsRead(rules, written, ownHead)
    case (Tick(_, _), Up(ck)) => Clean(ck)
    case (Close(_, _, _), Up(ck)) => Clean(ck) && Unrewritten(ck, w.Stream())
    case _ => true
  }

  ghost predicate OwnHeadIsRead(rules: Rules, written: Bytes, ownHead: Option<string>) {
    ownHead.Some? && EndsWithLf(written) ==> IsWhole(written) && ownHead == rules.HeadOfLine(LastLine(written))
  }

  ghost predicate AllowedRun(rules: Rules, w: World, steps: seq<Step>)
    requires w.past != []
    decreases |steps|
  {
    steps == [] || (Allowed(rules, w, steps[0]) && AllowedRun(rules, Next(rules, w, steps[0]), steps[1..]))
  }

  /** The bytes hashed are a prefix of a stream that was there. */
  ghost predicate WasThere(sum: Bytes, past: seq<Bytes>) {
    exists i: nat :: i < |past| && sum <= past[i]
  }

  /** The records handed over. */
  ghost function Told(notes: seq<Note>): iset<Fields> { iset f | IsTold(f, notes) }

  ghost predicate IsTold(f: Fields, notes: seq<Note>) { exists n :: n in notes && n.fields == f }

  /** A note's record covers its bytes, which a stream that was there began with, and, if the
      writer had looked, the stream of that time. */
  ghost predicate Holds(rules: Rules, n: Note, past: seq<Bytes>) {
    n.when < |past| && Covers(rules, n.fields, n.hashed) && WasThere(n.hashed, past)
    && (n.looked ==> n.hashed <= past[n.when])
  }

  ghost predicate AllHold(rules: Rules, notes: seq<Note>, past: seq<Bytes>) {
    forall n :: n in notes ==> Holds(rules, n, past)
  }

  /** The sidecar of a writer, up or down, is one of records in `told`. */
  ghost predicate ProcKept(rules: Rules, proc: Proc, past: seq<Bytes>, told: iset<Fields>) {
    match proc
    case Up(ck) => Exact(rules, ck) && WasThere(ck.sum, past) && SideKept(rules, ck, told)
    case Down(side) => exists len: nat :: SideAt(rules, side, len, told)
  }

  ghost predicate Kept(rules: Rules, w: World) {
    w.past != [] && AllHold(rules, w.notes, w.past) && ProcKept(rules, w.proc, w.past, Told(w.notes))
  }

  // ... the past only grows

  lemma {:induction false} ChainedLater(rules: Rules, side: Bytes, told: iset<Fields>, more: iset<Fields>)
    requires Chained(rules, side, told) && told <= more
    ensures Chained(rules, side, more)
    decreases |side|
  {
    hide Rules.TailHash;
    if side != [] {
      ChainedLater(rules, Before(side), told, more);
    }
  }

  lemma SideAtLater(rules: Rules, side: Bytes, len: nat, told: iset<Fields>, more: iset<Fields>)
    requires SideAt(rules, side, len, told) && told <= more
    ensures SideAt(rules, side, len, more)
  {
    hide Chained, Rules.TailHash, Lines, Whole;
    ChainedIsWhole(rules, side[..len], told);
    ChainedLater(rules, side[..len], told, more);
  }

  lemma HoldsLater(rules: Rules, notes: seq<Note>, past: seq<Bytes>, more: seq<Bytes>)
    requires AllHold(rules, notes, past)
    ensures AllHold(rules, notes, past + more)
  {
    hide Covers, WasThere;
    forall n | n in notes ensures Holds(rules, n, past + more) {
      WasThereLater(n.hashed, past, more);
    }
  }

  lemma WasThereLater(sum: Bytes, past: seq<Bytes>, more: seq<Bytes>)
    requires WasThere(sum, past)
    ensures WasThere(sum, past + more)
  {
    var i: nat :| i < |past| && sum <= past[i];
    assert (past + more)[i] == past[i];
  }

  // ... and each step keeps what is kept

  /** What an exact state says covers the bytes it was made from. */
  lemma StateCovers(rules: Rules, ck: Ck, kind: Kind, now: int)
    requires Exact(rules, ck) && ck.head.Some?
    ensures Covers(rules, Fields(kind, ck.count, ck.head.value, rules.hash(ck.sum), now, ck.prev), ck.sum)
  {
    hide Lines, Whole;
  }

  lemma WroteIfDueKeeps(rules: Rules, ck: Ck, now: int, disk: Disk, told: iset<Fields>)
    requires rules.EncodesLines() && Exact(rules, ck) && SideKept(rules, ck, told) && Clean(ck)
    requires IsDue(ck, now) ==>
               Fields(PeriodicKind, ck.count, ck.head.value, rules.hash(ck.sum), now, ck.prev) in told
    ensures var next := WroteIfDue(rules, ck, now, disk);
            Exact(rules, next) && next.sum == ck.sum && SideKept(rules, next, told)
  {
    hide Wrote, SideKept, Exact, Rules.EncodesLines;
    if IsDue(ck, now) {
      WroteKeepsChain(rules, ck, PeriodicKind, ck.count, ck.head.value, rules.hash(ck.sum), now, disk, told);
      WroteKeepsExact(rules, ck, PeriodicKind, ck.count, ck.head.value, rules.hash(ck.sum), now, disk);
    }
  }

  lemma WroteKeepsExact(
    rules: Rules, ck: Ck, kind: Kind, count: nat, head: string, prefix: string, now: int, disk: Disk)
    requires Exact(rules, ck)
    ensures var next := Wrote(rules, ck, kind, count, head, prefix, now, disk).0;
            Exact(rules, next) && next.sum == ck.sum
  {
    hide Lines, Whole, Wrote, Rules.HeadOf;
    WroteKeeps(rules, ck, kind, count, head, prefix, now, disk);
  }

  lemma PrefixWasThere(sum: Bytes, past: seq<Bytes>)
    ensures past != [] && sum <= past[|past| - 1] ==> WasThere(sum, past)
  {
  }

  /** A look, whether or not it succeeds: what it leaves was there, and if it succeeds it is the
      stream's own beginning. */
  lemma AdvancedKeeps(rules: Rules, ck: Ck, look: Look, past: seq<Bytes>, told: iset<Fields>)
    requires past != [] && Unrewritten(ck, past[|past| - 1])
    requires Exact(rules, ck) && WasThere(ck.sum, past) && SideKept(rules, ck, told) && Clean(ck)
    ensures var (next, ok) := Advanced(rules, ck, past[|past| - 1], look);
            && Exact(rules, next) && WasThere(next.sum, past) && SideKept(rules, next, told) && Clean(next)
            && (ok ==> next.sum <= past[|past| - 1]) && next.prev == ck.prev
  {
    hide WasThere, SideAt, Lines, Whole, Rules.HeadOf, Rules.TailHash, Scan, Exact;
    var stream := past[|past| - 1];
    AdvancedIsExact(rules, ck, stream, look);
    AdvancedIsPrefix(rules, ck, stream, look);
    var (next, ok) := Advanced(rules, ck, stream, look);
    if ok { AdvancedCatchesUp(rules, ck, stream, look); }
    if next.sum <= stream { PrefixWasThere(next.sum, past); }
  }

  lemma HashedKeeps(rules: Rules, ck: Ck, written: Bytes, ownHead: Option<string>, past: seq<Bytes>, told: iset<Fields>)
    requires past != []
    requires var to := past[|past| - 1];
             Unrewritten(ck, to) && GrewBy(ck, to, written) && to[ck.off..] == written
    requires OwnHeadIsRead(rules, written, ownHead)
    requires Exact(rules, ck) && SideKept(rules, ck, told)
    ensures var next := Hashed(ck, written, ownHead);
            && Exact(rules, next) && WasThere(next.sum, past) && SideKept(rules, next, told)
            && next.sum <= past[|past| - 1]
  {
    hide WasThere, SideAt, Lines, Whole, Rules.HeadOf, Rules.TailHash, Rules.HeadOfLine, LastLine;
    HashedIsExact(rules, ck, written, ownHead);
    var to := past[|past| - 1];
    assert to == ck.sum + written;
    PrefixWasThere(ck.sum + written, past);
  }

  /** An own append, before it writes. */
  lemma CaughtUpKeeps(
    rules: Rules, ck: Ck, lenFails: bool, written: Bytes, ownHead: Option<string>, look: Look,
    past: seq<Bytes>, told: iset<Fields>)
    requires past != []
    requires var to := past[|past| - 1];
             Unrewritten(ck, to) && (GrewBy(ck, to, written) ==> to[ck.off..] == written)
    requires OwnHeadIsRead(rules, written, ownHead)
    requires Exact(rules, ck) && WasThere(ck.sum, past) && SideKept(rules, ck, told) && Clean(ck)
    ensures var (next, ok) := CaughtUp(rules, ck, past[|past| - 1], lenFails, written, ownHead, look);
            && Exact(rules, next) && WasThere(next.sum, past) && SideKept(rules, next, told) && Clean(next)
            && (ok ==> next.sum <= past[|past| - 1])
  {
    hide WasThere, SideKept, Lines, Whole, Advanced, Exact, OwnHeadIsRead;
    if !lenFails && GrewBy(ck, past[|past| - 1], written) {
      HashedKeeps(rules, ck, written, ownHead, past, told);
    } else {
      AdvancedKeeps(rules, ck, look, past, told);
    }
  }

  /** A record of any instant with this content covers the bytes. */
  ghost predicate Names(rules: Rules, kind: Kind, count: nat, head: string, prefix: string, s: Bytes) {
    forall at, prev :: Covers(rules, Fields(kind, count, head, prefix, at, prev), s)
  }

  /** A line named at opening is one of the stream's. */
  lemma {:induction false} NameableIsTrue(rules: Rules, stream: Bytes, marks: seq<Mark>, bad: set<nat>, kind: Kind)
    requires forall i :: 0 <= i < |marks| ==> IsLineOf(marks[i], stream, 0, [], 0)
    ensures match Nameable(rules, stream, marks, bad)
            case None => true
            case Some((m, h)) => m.sum <= stream && Names(rules, kind, m.line, h, rules.hash(m.sum), m.sum)
  {
    hide Lines, Whole, Names, Rules.HeadAt, IsLineOf;
    if marks != [] {
      var m := marks[|marks| - 1];
      var head := rules.HeadAt(stream, m);
      if m.line !in bad && head.Some? {
        MarkIsTrue(rules, stream, m, kind);
      } else {
        NameableIsTrue(rules, stream, marks[..|marks| - 1], bad, kind);
      }
    }
  }

  lemma MarkIsTrue(rules: Rules, stream: Bytes, m: Mark, kind: Kind)
    requires IsLineOf(m, stream, 0, [], 0) && rules.HeadAt(stream, m).Some?
    ensures m.sum <= stream
    ensures Names(rules, kind, m.line, rules.HeadAt(stream, m).value, rules.hash(m.sum), m.sum)
  {
    hide Lines, Whole;
    var d := stream[..m.end];
    assert [] + d == d && stream[..m.end - 1] == d[..|d| - 1];
    assert LastLine(d) == stream[m.start..m.end - 1];
  }

  lemma MarksAreLines(stream: Bytes, keep: nat)
    ensures var marks := Scan(stream, 0, [], 0, keep).marks;
            forall i :: 0 <= i < |marks| ==> IsLineOf(marks[i], stream, 0, [], 0)
  {
    hide Lines, Whole, Marks, IsLineOf;
    assert stream[0..] == stream;
    MarksNonEmpty(stream, 0, [], 0);
  }

  lemma ResumedIsExact(rules: Rules, side: Bytes, stream: Bytes, bad: set<nat>, now: int)
    ensures var ck := Resumed(rules, side, stream, bad, now);
            Exact(rules, ck) && ck.sum <= stream
  {
    hide Lines, Whole, Marks, Scan, Rules.HeadAt, Rules.HeadOf, Rules.TailHash;
    NoLines();
    ScanIsExact(rules, stream, [], 0, RESUME_WINDOW);
    ScanSum(stream, 0, [], 0, RESUME_WINDOW);
    assert stream[0..] == stream;
  }

  lemma ResumedKeeps(rules: Rules, side: Bytes, len: nat, bad: set<nat>, now: int, past: seq<Bytes>, told: iset<Fields>)
    requires past != [] && SideAt(rules, side, len, told)
    ensures var ck := Resumed(rules, side, past[|past| - 1], bad, now);
            && Exact(rules, ck) && WasThere(ck.sum, past) && SideKept(rules, ck, told) && Clean(ck)
  {
    hide Chained, Lines, Whole, Scan, Rules.HeadAt, Exact, Rules.TailHash;
    ResumedIsExact(rules, side, past[|past| - 1], bad, now);
    ReopenKeepsChain(rules, side, len, told);
    var kept := side[..TailOf(rules, side).complete];
    WholeSlice(kept);
  }

  /** The record of an opening names a line of the stream and covers the stream through it. */
  lemma ResumeNoteHolds(
    rules: Rules, side: Bytes, unchained: bool, scanFails: bool, bad: set<nat>, now: int, past: seq<Bytes>)
    requires past != []
    ensures var notes := ResumeNote(rules, side, past[|past| - 1], unchained, scanFails, bad, now, |past| - 1);
            AllHold(rules, notes, past)
  {
    var stream := past[|past| - 1];
    hide Lines, Whole, Marks, Rules.HeadAt, Nameable, Scan, UnlikeOurs, Resumed, IsLineOf, Covers;
    MarksAreLines(stream, RESUME_WINDOW);
    NameableIsTrue(rules, stream, Scan(stream, 0, [], 0, RESUME_WINDOW).marks, bad, ResumeKind);
    var named := Nameable(rules, stream, Scan(stream, 0, [], 0, RESUME_WINDOW).marks, bad);
    if named.Some? { PrefixWasThere(named.value.0.sum, past); }
  }

  lemma OpensKeeps(
    rules: Rules, side: Bytes, len: nat, unchained: bool, scanFails: bool, bad: set<nat>, now: int, disk: Disk,
    past: seq<Bytes>, when: nat, told: iset<Fields>)
    requires rules.EncodesLines() && past != [] && SideAt(rules, side, len, told)
    requires forall n :: n in ResumeNote(rules, side, past[|past| - 1], unchained, scanFails, bad, now, when) ==>
                         n.fields in told
    ensures match Opens(rules, side, past[|past| - 1], unchained, scanFails, bad, now, disk)
            case Opened(ck) => Exact(rules, ck) && WasThere(ck.sum, past) && SideKept(rules, ck, told)
            case Refused(left) => exists k: nat :: SideAt(rules, left, k, told)
  {
    hide Lines, Whole, Marks, Rules.HeadAt, Wrote, Nameable, WasThere, UnlikeOurs, Scan, Rules.EncodesLines, SideAt,
         Exact, Rules.TailHash;
    var stream := past[|past| - 1];
    OursIsFound(rules, side, len, told);
    ResumedKeeps(rules, side, len, bad, now, past, told);
    var ck := Resumed(rules, side, stream, bad, now);
    assert ck.sidecar == side[..Whole(side)];
    assert SideAt(rules, ck.sidecar, ck.sidecarLen, told);
    var notes := ResumeNote(rules, side, stream, unchained, scanFails, bad, now, when);
    if notes != [] {
      var f := notes[0].fields;
      assert notes[0] in notes;
      WroteKeepsChain(rules, ck, ResumeKind, f.count, f.head, f.prefix, now, disk, told);
      WroteKeepsExact(rules, ck, ResumeKind, f.count, f.head, f.prefix, now, disk);
    }
  }

  /** The notes hold, and are of the stream as it now stands, seen or not. */
  ghost predicate HoldNow(rules: Rules, notes: seq<Note>, past: seq<Bytes>, looked: bool) {
    past != [] && AllHold(rules, notes, past) && forall n :: n in notes ==> n.when == |past| - 1 && n.looked == looked
  }

  lemma NoNoteHoldsNow(rules: Rules, past: seq<Bytes>, looked: bool)
    ensures past != [] ==> HoldNow(rules, [], past, looked)
  {
  }

  lemma NoteHoldsNow(rules: Rules, ck: Ck, kind: Kind, now: int, past: seq<Bytes>, looked: bool)
    requires past != [] && Exact(rules, ck) && WasThere(ck.sum, past) && ck.head.Some?
    requires looked ==> ck.sum <= past[|past| - 1]
    ensures HoldNow(rules, [NoteOf(rules, ck, kind, now, |past| - 1, looked)], past, looked)
  {
    hide WasThere, Exact, Covers;
    StateCovers(rules, ck, kind, now);
  }

  lemma ResumeHoldsNow(
    rules: Rules, side: Bytes, unchained: bool, scanFails: bool, bad: set<nat>, now: int, past: seq<Bytes>)
    requires past != []
    ensures HoldNow(rules, ResumeNote(rules, side, past[|past| - 1], unchained, scanFails, bad, now, |past| - 1), past, true)
  {
    ResumeNoteHolds(rules, side, unchained, scanFails, bad, now, past);
    hide AllHold, Nameable, Resumed, UnlikeOurs, Scan;
  }

  /** What a step hands over holds of the stream as the step leaves it. */
  lemma HandedHolds(rules: Rules, w: World, step: Step)
    requires Kept(rules, w) && Allowed(rules, w, step)
    ensures HoldNow(rules, Handed(rules, w, step), Next(rules, w, step).past, !step.Tick?)
  {
    hide WasThere, SideKept, Exact, Unrewritten, GrewBy, OwnHeadIsRead, Clean, Opens, Appended, WroteIfDue, Closed,
         CaughtUp, Advanced, ResumeNote, HoldNow, NoteOf, AllHold;
    var told := Told(w.notes);
    NoNoteHoldsNow(rules, Next(rules, w, step).past, !step.Tick?);
    match (step, w.proc)
    case (Own(to, written, ownHead, lenFails, look, now, disk), Up(ck)) =>
      var past := w.past + [to];
      WasThereLater(ck.sum, w.past, [to]);
      CaughtUpKeeps(rules, ck, lenFails, written, ownHead, look, past, told);
      var (next, ok) := CaughtUp(rules, ck, to, lenFails, written, ownHead, look);
      if ok && next.head.Some? { NoteHoldsNow(rules, next, PeriodicKind, now, past, true); }
    case (Tick(now, disk), Up(ck)) =>
      if ck.head.Some? { NoteHoldsNow(rules, ck, PeriodicKind, now, w.past, false); }
    case (Close(look, now, disk), Up(ck)) =>
      AdvancedKeeps(rules, ck, look, w.past, told);
      var (next, ok) := Advanced(rules, ck, w.Stream(), look);
      if ok && next.head.Some? { NoteHoldsNow(rules, next, CloseKind, now, w.past, true); }
    case (Reopens(unchained, scanFails, bad, now, disk), Down(side)) =>
      ResumeHoldsNow(rules, side, unchained, scanFails, bad, now, w.past);
    case _ =>
  }

  lemma ToldMore(notes: seq<Note>, more: seq<Note>)
    ensures Told(notes) <= Told(notes + more)
    ensures forall n :: n in more ==> n.fields in Told(notes + more)
  {
    forall n | n in more ensures n.fields in Told(notes + more) { assert n in notes + more; }
    forall f | f in Told(notes) ensures f in Told(notes + more) {
      var n :| n in notes && n.fields == f;
      assert n in notes + more;
    }
  }

  /** A step keeps the writer's state and the chain of its sidecar, whose records are those
      handed over before and by the step. */
  lemma ProcStepKeeps(rules: Rules, w: World, step: Step, told: iset<Fields>)
    requires rules.EncodesLines() && Kept(rules, w) && Allowed(rules, w, step)
    requires Told(w.notes) <= told && forall n :: n in Handed(rules, w, step) ==> n.fields in told
    ensures ProcKept(rules, Next(rules, w, step).proc, Next(rules, w, step).past, told)
  {
    hide WasThere, SideAt, SideKept, Rules.EncodesLines, Exact, Unrewritten, GrewBy, OwnHeadIsRead, Clean, Opens,
         CaughtUp, Advanced, WroteIfDue, Wrote, ResumeNote, Told, AllHold;
    match (step, w.proc)
    case (Turns(to), Up(ck)) => UpLater(rules, ck, w.past, [to], Told(w.notes), told);
    case (Turns(to), Down(side)) =>
      var len: nat :| SideAt(rules, side, len, Told(w.notes));
      SideAtLater(rules, side, len, Told(w.notes), told);
    case (Own(to, written, ownHead, lenFails, look, now, disk), Up(ck)) =>
      UpLater(rules, ck, w.past, [to], Told(w.notes), told);
      OwnKeeps(rules, ck, lenFails, written, ownHead, look, now, disk, w.past + [to], told);
    case (Tick(now, disk), Up(ck)) =>
      UpLater(rules, ck, w.past, [], Told(w.notes), told);
      if IsDue(ck, now) {
        assert NoteOf(rules, ck, PeriodicKind, now, |w.past| - 1, false) in Handed(rules, w, step);
      }
      WroteIfDueKeeps(rules, ck, now, disk, told);
    case (Close(look, now, disk), Up(ck)) =>
      UpLater(rules, ck, w.past, [], Told(w.notes), told);
      CloseKeeps(rules, ck, look, now, disk, w.past, told);
    case (Dies, Up(ck)) =>
      UpLater(rules, ck, w.past, [], Told(w.notes), told);
      KeptIsAt(rules, ck, told);
    case (Reopens(unchained, scanFails, bad, now, disk), Down(side)) =>
      var len: nat :| SideAt(rules, side, len, Told(w.notes));
      SideAtLater(rules, side, len, Told(w.notes), told);
      OpensKeeps(rules, side, len, unchained, scanFails, bad, now, disk, w.past, |w.past| - 1, told);
    case (_, Up(ck)) => UpLater(rules, ck, w.past, [], Told(w.notes), told);
    case (_, Down(side)) =>
      var len: nat :| SideAt(rules, side, len, Told(w.notes));
      SideAtLater(rules, side, len, Told(w.notes), told);
  }

  lemma OwnKeeps(
    rules: Rules, ck: Ck, lenFails: bool, written: Bytes, ownHead: Option<string>,
    look: Look, now: int, disk: Disk, past: seq<Bytes>, told: iset<Fields>)
    requires rules.EncodesLines() && past != []
    requires var to := past[|past| - 1];
             Unrewritten(ck, to) && (GrewBy(ck, to, written) ==> to[ck.off..] == written)
    requires OwnHeadIsRead(rules, written, ownHead)
    requires Exact(rules, ck) && WasThere(ck.sum, past) && SideKept(rules, ck, told) && Clean(ck)
    requires var (next, ok) := CaughtUp(rules, ck, past[|past| - 1], lenFails, written, ownHead, look);
             ok && IsDue(next, now) ==> NoteOf(rules, next, PeriodicKind, now, 0, true).fields in told
    ensures var next := Appended(rules, ck, past[|past| - 1], lenFails, written, ownHead, look, now, disk);
            Exact(rules, next) && WasThere(next.sum, past) && SideKept(rules, next, told)
  {
    hide WasThere, SideKept, Rules.EncodesLines, WroteIfDue, CaughtUp, Exact, OwnHeadIsRead, Clean;
    CaughtUpKeeps(rules, ck, lenFails, written, ownHead, look, past, told);
    var (next, ok) := CaughtUp(rules, ck, past[|past| - 1], lenFails, written, ownHead, look);
    if ok { WroteIfDueKeeps(rules, next, now, disk, told); }
  }

  lemma CloseKeeps(rules: Rules, ck: Ck, look: Look, now: int, disk: Disk, past: seq<Bytes>, told: iset<Fields>)
    requires rules.EncodesLines() && past != [] && Unrewritten(ck, past[|past| - 1])
    requires Exact(rules, ck) && WasThere(ck.sum, past) && SideKept(rules, ck, told) && Clean(ck)
    requires var (next, ok) := Advanced(rules, ck, past[|past| - 1], look);
             ok && CanClose(next) ==> NoteOf(rules, next, CloseKind, now, 0, true).fields in told
    ensures var next := Closed(rules, ck, past[|past| - 1], look, now, disk).0;
            Exact(rules, next) && WasThere(next.sum, past) && SideKept(rules, next, told)
  {
    hide WasThere, SideKept, Rules.EncodesLines, Wrote, Advanced, Exact, Clean, Unrewritten;
    AdvancedKeeps(rules, ck, look, past, told);
    var (next, ok) := Advanced(rules, ck, past[|past| - 1], look);
    if ok && CanClose(next) {
      WroteKeepsChain(rules, next, CloseKind, next.count, next.head.value, rules.hash(next.sum), now, disk, told);
      WroteKeepsExact(rules, next, CloseKind, next.count, next.head.value, rules.hash(next.sum), now, disk);
    }
  }

  lemma KeptIsAt(rules: Rules, ck: Ck, told: iset<Fields>)
    ensures SideKept(rules, ck, told) ==> SideAt(rules, ck.sidecar, ck.sidecarLen, told)
  {
  }

  lemma UpLater(rules: Rules, ck: Ck, past: seq<Bytes>, more: seq<Bytes>, before: iset<Fields>, told: iset<Fields>)
    requires WasThere(ck.sum, past) && SideKept(rules, ck, before) && before <= told
    ensures WasThere(ck.sum, past + more) && SideKept(rules, ck, told)
    ensures more == [] ==> past + more == past
  {
    hide WasThere, SideAt, Rules.TailHash;
    WasThereLater(ck.sum, past, more);
    SideAtLater(rules, ck.sidecar, ck.sidecarLen, before, told);
  }

  /** A record whose writer had looked is true of the stream that was there when it was
      written; one that a tick wrote is so if and only if the bytes hashed still began it. */
  ghost predicate TrueWhenWritten(rules: Rules, n: Note, past: seq<Bytes>) {
    n.when < |past|
    && (n.looked ==> TrueOf(rules, n.fields, past[n.when]))
    && (Injective(rules) ==> (TrueOf(rules, n.fields, past[n.when]) <==> n.hashed <= past[n.when]))
  }

  lemma CoveredIsTrue(rules: Rules, f: Fields, hashed: Bytes, stream: Bytes)
    requires Covers(rules, f, hashed)
    ensures hashed <= stream ==> TrueOf(rules, f, stream)
    ensures Injective(rules) ==> (TrueOf(rules, f, stream) <==> hashed <= stream)
  {
    hide Lines, Whole, Rules.HeadOf;
    if hashed <= stream {
      assert stream[..|hashed|] == hashed;
    }
    if Injective(rules) && TrueOf(rules, f, stream) {
      var k: nat :| k <= |stream| && Covers(rules, f, stream[..k]);
      assert stream[..k] == hashed;
    }
  }

  /** Every record that an own append, a close or an opening writes is true of the stream as it
      then stands, and a tick's is if and only if the bytes hashed are still its first ones. */
  lemma WrittenIsTrue(rules: Rules, w: World, step: Step)
    requires Kept(rules, w) && Allowed(rules, w, step)
    ensures var stream := Next(rules, w, step).Stream();
            forall n :: n in Handed(rules, w, step) ==>
              && (!step.Tick? ==> TrueOf(rules, n.fields, stream))
              && (Injective(rules) ==> (TrueOf(rules, n.fields, stream) <==> n.hashed <= stream))
  {
    hide Kept, Allowed, Handed, HoldNow, TrueOf, Next, Injective;
    KeptHasPast(rules, w);
    HandedHolds(rules, w, step);
    NotesAreTrueNow(rules, Handed(rules, w, step), Next(rules, w, step).past, !step.Tick?);
  }

  lemma NotesAreTrueNow(rules: Rules, notes: seq<Note>, past: seq<Bytes>, looked: bool)
    requires HoldNow(rules, notes, past, looked)
    ensures forall n :: n in notes ==>
              && (looked ==> TrueOf(rules, n.fields, past[|past| - 1]))
              && (Injective(rules) ==> (TrueOf(rules, n.fields, past[|past| - 1]) <==> n.hashed <= past[|past| - 1]))
  {
    hide Covers, TrueOf, WasThere, Injective;
    forall n | n in notes
      ensures looked ==> TrueOf(rules, n.fields, past[|past| - 1])
      ensures Injective(rules) ==> (TrueOf(rules, n.fields, past[|past| - 1]) <==> n.hashed <= past[|past| - 1])
    {
      CoveredIsTrue(rules, n.fields, n.hashed, past[|past| - 1]);
    }
  }

  lemma StepKeeps(rules: Rules, w: World, step: Step)
    requires rules.EncodesLines() && Kept(rules, w) && Allowed(rules, w, step)
    ensures Kept(rules, Next(rules, w, step))
  {
    hide Kept, Allowed, Handed, HoldNow, ProcKept, Moved, Told, Rules.EncodesLines;
    KeptHasPast(rules, w);
    HandedHolds(rules, w, step);
    ToldMore(w.notes, Handed(rules, w, step));
    ProcStepKeeps(rules, w, step, Told(Next(rules, w, step).notes));
    NotesHoldOn(rules, w, Handed(rules, w, step), Next(rules, w, step), !step.Tick?);
  }

  lemma KeptHasPast(rules: Rules, w: World)
    requires Kept(rules, w)
    ensures w.past != []
  {
  }

  lemma NotesHoldOn(rules: Rules, w: World, handed: seq<Note>, next: World, looked: bool)
    requires Kept(rules, w) && w.past <= next.past && next.notes == w.notes + handed
    requires HoldNow(rules, handed, next.past, looked) && ProcKept(rules, next.proc, next.past, Told(next.notes))
    ensures Kept(rules, next)
  {
    hide Holds, ProcKept, Told;
    assert next.past == w.past + next.past[|w.past|..];
    HoldsLater(rules, w.notes, w.past, next.past[|w.past|..]);
  }

  /** Over any run, with dying and reopening anywhere: the writer's state is one line
      boundary of a stream that was there, the sidecar is one hash chain from the genesis
      value, and every record in it was handed over at some step and holds of its time. */
  lemma {:induction false} RunKeeps(rules: Rules, w: World, steps: seq<Step>)
    requires rules.EncodesLines() && Kept(rules, w) && AllowedRun(rules, w, steps)
    ensures Kept(rules, Run(rules, w, steps))
    decreases |steps|
  {
    if steps != [] {
      hide Kept, Allowed, Next, Rules.EncodesLines;
      StepKeeps(rules, w, steps[0]);
      RunKeeps(rules, Next(rules, w, steps[0]), steps[1..]);
    }
  }

  /** The whole of it, from an empty sidecar. */
  lemma RunsAreKept(rules: Rules, start: Bytes, steps: seq<Step>)
    requires rules.EncodesLines() && AllowedRun(rules, World([start], Down([]), []), steps)
    ensures var end := Run(rules, World([start], Down([]), []), steps);
            var side := SideOf(end);
            && Kept(rules, end)
            && Chained(rules, side[..Whole(side)], Told(end.notes))
            && ReadsAsChain(rules, side[..Whole(side)])
            && forall n :: n in end.notes ==> TrueWhenWritten(rules, n, end.past) && WasTrue(rules, n.fields, end.past)
  {
    hide Run, AllowedRun, Rules.EncodesLines, Chained, Lines, Whole, ReadsAsChain;
    var w := World([start], Down([]), []);
    NothingIsKept(rules, start);
    RunKeeps(rules, w, steps);
    KeptIsChained(rules, Run(rules, w, steps));
    NotesAreTrue(rules, Run(rules, w, steps));
  }

  /** The record is true of a stream that was there. */
  ghost predicate WasTrue(rules: Rules, f: Fields, past: seq<Bytes>) {
    exists i: nat :: i < |past| && TrueOf(rules, f, past[i])
  }

  lemma NotesAreTrue(rules: Rules, w: World)
    requires Kept(rules, w)
    ensures forall n :: n in w.notes ==> TrueWhenWritten(rules, n, w.past) && WasTrue(rules, n.fields, w.past)
  {
    hide Covers, TrueOf, ProcKept, Injective;
    forall n | n in w.notes ensures TrueWhenWritten(rules, n, w.past) && WasTrue(rules, n.fields, w.past) {
      assert Holds(rules, n, w.past);
      CoveredIsTrue(rules, n.fields, n.hashed, w.past[n.when]);
      var i: nat :| i < |w.past| && n.hashed <= w.past[i];
      CoveredIsTrue(rules, n.fields, n.hashed, w.past[i]);
    }
  }

  lemma NothingIsKept(rules: Rules, start: Bytes)
    ensures Kept(rules, World([start], Down([]), []))
  {
    NothingIsChained(rules, Told([]));
  }

  function SideOf(w: World): Bytes {
    match w.proc
    case Up(ck) => ck.sidecar
    case Down(side) => side
  }

  lemma NothingIsChained(rules: Rules, told: iset<Fields>)
    ensures SideAt(rules, [], 0, told)
  {
    var none: Bytes := [];
    assert none[..0] == [] && none[0..] == [];
  }

  lemma KeptIsChained(rules: Rules, w: World)
    requires rules.EncodesLines() && Kept(rules, w)
    ensures Chained(rules, SideOf(w)[..Whole(SideOf(w))], Told(w.notes))
    ensures ReadsAsChain(rules, SideOf(w)[..Whole(SideOf(w))])
  {
    hide SideAt, Rules.EncodesLines, Exact, WasThere, Whole, Rules.TailHash, Chained, ReadsAsChain, AllHold, Told;
    var side, told := SideOf(w), Told(w.notes);
    var len: nat :| SideAt(rules, side, len, told);
    ReopenKeepsChain(rules, side, len, told);
    ChainReads(rules, side[..Whole(side)], told);
  }

  /** What a reader of the file checks: each record's `prev` is the hash of the line before
      it, and the first one's is the genesis value. */
  ghost predicate ReadsAsChain(rules: Rules, side: Bytes) {
    IsWhole(side)
    && (side == [] || (rules.prevOf(LastLine(side)) == rules.TailHash(Before(side)) && ReadsAsChain(rules, Before(side))))
  }

  lemma ReadsWhole(rules: Rules, side: Bytes)
    ensures ReadsAsChain(rules, side) ==> IsWhole(side)
  {
  }

  lemma ReadsOneMore(rules: Rules, side: Bytes, line: Bytes)
    requires IsWhole(side) && Lines(line) == 0
    ensures IsWhole(side + line + [LF]) && rules.TailHash(side + line + [LF]) == rules.hash(line)
    ensures ReadsAsChain(rules, side + line + [LF])
       <==> ReadsAsChain(rules, side) && rules.prevOf(line) == rules.TailHash(side)
  {
    hide Lines, Whole, LastLine, Before;
    BeforeAppended(side, line);
  }

  lemma {:induction false} ChainReads(rules: Rules, side: Bytes, told: iset<Fields>)
    requires rules.EncodesLines() && Chained(rules, side, told)
    ensures ReadsAsChain(rules, side)
    decreases |side|
  {
    hide Rules.TailHash, Whole, LastLine;
    if side != [] {
      ChainReads(rules, Before(side), told);
    }
  }

  // ----------------------------------------------------------- append-only runs

  /** A step of a stream that is only appended to: by others at any time, and by the
      exporter, whose bytes others' may come before and after. */
  ghost predicate Appends(rules: Rules, w: World, step: Step)
    requires w.past != []
  {
    match (step, w.proc)
    case (Turns(to), _) => w.Stream() <= to
    case (Own(to, written, ownHead, _, _, _, _), Up(ck)) =>
      && Clean(ck)
      && OwnHeadIsRead(rules, written, ownHead)
      && exists before, after :: to == w.Stream() + before + written + after
    case (Tick(_, _), Up(ck)) => Clean(ck)
    case (Close(_, _, _), Up(ck)) => Clean(ck)
    case _ => true
  }

  ghost predicate AppendRun(rules: Rules, w: World, steps: seq<Step>)
    requires w.past != []
    decreases |steps|
  {
    steps == [] || (Appends(rules, w, steps[0]) && AppendRun(rules, Next(rules, w, steps[0]), steps[1..]))
  }

  ghost predicate Rising(past: seq<Bytes>) {
    forall i, j :: 0 <= i <= j < |past| ==> past[i] <= past[j]
  }

  lemma RisesOnce(past: seq<Bytes>, to: Bytes)
    requires past != [] && Rising(past) && past[|past| - 1] <= to
    ensures Rising(past + [to])
  {
    forall i, j | 0 <= i <= j < |past| + 1 ensures (past + [to])[i] <= (past + [to])[j] {
      if i < |past| {
        assert past[i] <= past[|past| - 1];
      }
    }
  }

  lemma HashedIsPresent(sum: Bytes, past: seq<Bytes>)
    requires past != [] && Rising(past) && WasThere(sum, past)
    ensures sum <= past[|past| - 1]
  {
    var i: nat :| i < |past| && sum <= past[i];
    assert past[i] <= past[|past| - 1];
  }

  lemma PastGrows(rules: Rules, w: World, step: Step)
    requires w.past != []
    ensures Next(rules, w, step).past
         == if step.Turns? || (step.Own? && w.proc.Up?) then w.past + [step.to] else w.past
  {
    hide Appended, Opens, Closed, WroteIfDue, Handed;
  }

  /** On a stream that is only appended to, the premises of a look hold by themselves. */
  lemma AppendsIsAllowed(rules: Rules, w: World, step: Step)
    requires Kept(rules, w) && Rising(w.past) && Appends(rules, w, step)
    ensures Allowed(rules, w, step) && Rising(Next(rules, w, step).past)
  {
    hide SideKept, Next, AllHold, WasThere, OwnHeadIsRead, Lines, Whole, Rules.HeadOf, Rising;
    PastGrows(rules, w, step);
    match (step, w.proc)
    case (Turns(to), _) => RisesOnce(w.past, to);
    case (Own(to, written, _, _, _, _, _), Up(ck)) =>
      OwnComesBetween(w.Stream(), to, written);
      HashedIsPresent(ck.sum, w.past);
      RisesOnce(w.past, to);
      OwnIsUnrewritten(ck, w.Stream(), to, written);
    case (Close(_, _, _), Up(ck)) => HashedIsPresent(ck.sum, w.past);
    case _ =>
  }

  lemma OwnComesBetween(stream: Bytes, to: Bytes, written: Bytes)
    requires exists before, after :: to == stream + before + written + after
    ensures stream <= to
  {
  }

  lemma OwnIsUnrewritten(ck: Ck, stream: Bytes, to: Bytes, written: Bytes)
    requires |ck.sum| == ck.off && ck.sum <= stream
    requires exists before, after :: to == stream + before + written + after
    ensures Unrewritten(ck, to) && (GrewBy(ck, to, written) ==> to[ck.off..] == written)
  {
    var before, after :| to == stream + before + written + after;
    if GrewBy(ck, to, written) {
      assert |stream| == ck.off && before == [] && after == [];
      assert to == ck.sum + written;
    }
  }

  lemma {:induction false} AppendRunIsAllowed(rules: Rules, w: World, steps: seq<Step>)
    requires rules.EncodesLines() && Kept(rules, w) && Rising(w.past) && AppendRun(rules, w, steps)
    ensures AllowedRun(rules, w, steps) && Rising(Run(rules, w, steps).past)
    decreases |steps|
  {
    if steps != [] {
      hide Kept, Allowed, Next, Rules.EncodesLines, Rising, Appends;
      AppendsIsAllowed(rules, w, steps[0]);
      StepKeeps(rules, w, steps[0]);
      AppendRunIsAllowed(rules, Next(rules, w, steps[0]), steps[1..]);
    }
  }

  /** The records that are true of the stream. */
  ghost function AllTrueOf(rules: Rules, stream: Bytes): iset<Fields> { iset f | TrueOf(rules, f, stream) }

  /** On a stream that has only grown, whatever was handed over is true. */
  lemma ToldIsTrue(rules: Rules, w: World)
    requires Kept(rules, w) && Rising(w.past)
    ensures Told(w.notes) <= AllTrueOf(rules, w.Stream())
  {
    hide Covers, TrueOf, ProcKept, Rising, WasThere;
    forall n | n in w.notes ensures TrueOf(rules, n.fields, w.Stream()) {
      assert Holds(rules, n, w.past);
      HashedIsPresent(n.hashed, w.past);
      CoveredIsTrue(rules, n.fields, n.hashed, w.Stream());
    }
  }

  /** On a stream that is only appended to, every record ever written stays true: it covers
      the first lines of the stream as it stands at the end. */
  lemma RecordsStayTrue(rules: Rules, start: Bytes, steps: seq<Step>)
    requires rules.EncodesLines() && AppendRun(rules, World([start], Down([]), []), steps)
    ensures var end := Run(rules, World([start], Down([]), []), steps);
            var side := SideOf(end);
            Chained(rules, side[..Whole(side)], AllTrueOf(rules, end.Stream()))
  {
    hide Run, AllowedRun, AppendRun, Rules.EncodesLines, Chained, Whole, ReadsAsChain, Kept, AllTrueOf, Told;
    var w := World([start], Down([]), []);
    NothingIsKept(rules, start);
    AppendRunIsAllowed(rules, w, steps);
    RunsAreKept(rules, start, steps);
    var end := Run(rules, w, steps);
    ToldIsTrue(rules, end);
    ChainedLater(rules, SideOf(end)[..Whole(SideOf(end))], Told(end.notes), AllTrueOf(rules, end.Stream()));
  }

  // -------------------------------------------------- a record after a cut stream

  /** `Tick` writes without looking. With an injective hash, the record it writes is true of
      the stream as it stands if and only if the bytes hashed are still its first ones. */
  lemma TickIsTrue(rules: Rules, ck: Ck, stream: Bytes, kind: Kind, at: int, prev: string)
    requires Injective(rules) && Exact(rules, ck) && ck.head.Some?
    ensures TrueOf(rules, Fields(kind, ck.count, ck.head.value, rules.hash(ck.sum), at, prev), stream)
       <==> ck.sum <= stream
  {
    hide Covers, TrueOf, Lines, Whole, Rules.HeadOf, Injective;
    StateCovers(rules, ck.(prev := prev), kind, at);
    CoveredIsTrue(rules, Fields(kind, ck.count, ck.head.value, rules.hash(ck.sum), at, prev), ck.sum, stream);
  }

  /** A stream cut between the last append and the tick: the record counts a line that is
      not there. */
  lemma TickAfterACut(rules: Rules, event: Bytes, head: string, now: int)
    requires Lines(event) == 0 && |event| <= LINE_CAP && rules.event(event) == Some(head)
    requires rules.encode(Fields(PeriodicKind, 1, head, rules.hash(event + [LF]), now, GENESIS)).Some?
    requires |rules.encode(Fields(PeriodicKind, 1, head, rules.hash(event + [LF]), now, GENESIS)).value| <= RECORD_CAP
    ensures var f := Fields(PeriodicKind, 1, head, rules.hash(event + [LF]), now, GENESIS);
            var ck := Ck(event + [LF], |event| + 1, 1, Some(head), GENESIS, 1, now - INTERVAL_MILLIS, [], 0);
            && Exact(rules, ck)
            && WroteIfDue(rules, ck, now, Writes).sidecar == rules.encode(f).value + [LF]
            && !TrueOf(rules, f, [])
  {
    OneLineIsExact(rules, event, head, now - INTERVAL_MILLIS);
    hide Exact, TrueOf;
    assert [] + (rules.encode(Fields(PeriodicKind, 1, head, rules.hash(event + [LF]), now, GENESIS)).value + [LF])
        == rules.encode(Fields(PeriodicKind, 1, head, rules.hash(event + [LF]), now, GENESIS)).value + [LF];
  }

  lemma OneLineIsExact(rules: Rules, event: Bytes, head: string, lastAt: int)
    requires Lines(event) == 0 && |event| <= LINE_CAP && rules.event(event) == Some(head)
    ensures Exact(rules, Ck(event + [LF], |event| + 1, 1, Some(head), GENESIS, 1, lastAt, [], 0))
  {
    hide Lines, Whole, LastLine;
    NoLines();
    NothingBefore(event);
    BeforeAppended([], event);
    LinesAppend(event, [LF]);
    OneEnd();
  }

}
