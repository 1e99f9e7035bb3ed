/** The checkpoint sidecar writer (crates/core/src/checkpoint.rs): an incremental hash over
    a stream that others may also append to or cut, and a chain of records in a sidecar
    file that must survive torn appends and restarts.

    `Ck` is the writer's state. `Checkpointer` is the object that changes it; each of its
    methods is tied to a function on `Ck`, and the functions are what the properties and
    the runs further down are about. Failed reads and writes are arguments. */
module Checkpoint {
  import opened Wrappers
  import opened Stream

  const EVERY_LINES: nat := 64
  const INTERVAL_MILLIS: int := 10_000
  const LINE_CAP: nat := 0x40_0000
  const RECORD_CAP: nat := 4096
  const RESUME_WINDOW: nat := 4096
  const SIDECAR_TAIL_CAP: nat := 0x100_0000
  const FIRST_WINDOW: nat := 8192
  const GENESIS: string := "sha256:" + seq(64, i => '0')

  datatype Kind = PeriodicKind | CloseKind | ResumeKind

  datatype Fields = Fields(kind: Kind, count: nat, head: string, prefix: string, at: int, prev: string)

  /** What the writer takes as given: the digest in its text form, the chain hash of a
      line that is a well-formed event, the encoding of a record (nothing when the key
      cannot sign), and the reading of a record's `prev`. */
  datatype Rules = Rules(
    hash: Bytes -> string, event: Bytes -> Option<string>,
    encode: Fields -> Option<Bytes>, prevOf: Bytes -> string)
  {
    /** A record is one line, and carries the `prev` it was given. */
    ghost predicate EncodesLines() {
      forall f :: encode(f).Some? ==> LF !in encode(f).value && prevOf(encode(f).value) == f.prev
    }

    function HeadOfLine(line: Bytes): Option<string> {
      if |line| > LINE_CAP then None else event(line)
    }

    /** The head of the last of some whole lines. */
    function HeadOf(sum: Bytes): Option<string>
      requires IsWhole(sum)
    {
      if sum == [] then None else HeadOfLine(LastLine(sum))
    }

    function HeadAt(file: Bytes, m: Mark): Option<string> {
      if m.start < m.end <= |file| then HeadOfLine(file[m.start..m.end - 1]) else None
    }

    /** The `prev` of the next record after some whole lines of records. */
    function TailHash(side: Bytes): string
      requires IsWhole(side)
    {
      if side == [] then GENESIS else hash(LastLine(side))
    }
  }

  datatype Ck = Ck(
    sum: Bytes, off: nat, count: nat, head: Option<string>,
    prev: string, pending: nat, lastAt: int, sidecar: Bytes, sidecarLen: nat)

  /** Which reads of the stream fail. */
  datatype Look = Look(metaFails: bool, readFails: bool, headFails: bool)

  /** How a write to the sidecar goes: through, or torn after `kept` bytes, in which case
      cutting it off again may fail too. */
  datatype Disk = Writes | Tears(kept: nat, cut: bool)

  // ------------------------------------------------------------ what it does

  function Advanced(rules: Rules, ck: Ck, stream: Bytes, look: Look): (Ck, bool) {
    if look.metaFails then (ck, false)
    else
      var from := if |stream| < ck.off then ck.(sum := [], off := 0, count := 0, head := None) else ck;
      if |stream| == from.off then (from, true)
      else if look.readFails then (from, false)
      else
        var s := Scan(stream, from.off, from.sum, from.count, 1);
        var added := s.count - from.count;
        var head := if added == 0 then from.head
                    else if look.headFails || s.marks == [] then None
                    else rules.HeadAt(stream, s.marks[|s.marks| - 1]);
        (from.(sum := s.sum, off := s.off, count := s.count, head := head, pending := from.pending + added), true)
  }

  function Wrote(
    rules: Rules, ck: Ck, kind: Kind, count: nat, head: string, prefix: string, now: int, disk: Disk): (Ck, bool)
  {
    match rules.encode(Fields(kind, count, head, prefix, now, ck.prev))
    case None => (ck, false)
    case Some(record) =>
      if |record| > RECORD_CAP then (ck, false)
      else
        var line := record + [LF];
        match disk
        case Tears(kept, cut) =>
          var torn := ck.sidecar + if kept <= |line| then line[..kept] else line;
          (ck.(sidecar := if cut && ck.sidecarLen <= |torn| then torn[..ck.sidecarLen] else torn), false)
        case Writes =>
          (ck.(sidecar := ck.sidecar + line, sidecarLen := ck.sidecarLen + |line|,
               prev := rules.hash(record), lastAt := now, pending := 0), true)
  }

  /** Lines are waiting, the interval has passed or they are many, and the last is an event. */
  predicate IsDue(ck: Ck, now: int) {
    ck.pending != 0 && (ck.pending >= EVERY_LINES || now - ck.lastAt >= INTERVAL_MILLIS) && ck.head.Some?
  }

  function WroteIfDue(rules: Rules, ck: Ck, now: int, disk: Disk): Ck {
    if !IsDue(ck, now) then ck
    else Wrote(rules, ck, PeriodicKind, ck.count, ck.head.value, rules.hash(ck.sum), now, disk).0
  }

  predicate EndsWithLf(s: Bytes) { s != [] && s[|s| - 1] == LF }

  /** The stream grew by exactly what was written. */
  predicate GrewBy(ck: Ck, stream: Bytes, written: Bytes) {
    |stream| == ck.off + |written| && EndsWithLf(written)
  }

  function Hashed(ck: Ck, written: Bytes, ownHead: Option<string>): Ck {
    ck.(sum := ck.sum + written, off := ck.off + |written|, count := ck.count + Lines(written),
        pending := ck.pending + Lines(written), head := ownHead)
  }

  /** The state after an own append, and whether it got there. */
  function CaughtUp(
    rules: Rules, ck: Ck, stream: Bytes, lenFails: bool, written: Bytes, ownHead: Option<string>, look: Look): (Ck, bool)
  {
    if !lenFails && GrewBy(ck, stream, written) then (Hashed(ck, written, ownHead), true)
    else Advanced(rules, ck, stream, look)
  }

  function Appended(
    rules: Rules, ck: Ck, stream: Bytes, lenFails: bool, written: Bytes, ownHead: Option<string>,
    look: Look, now: int, disk: Disk): Ck
  {
    var (next, ok) := CaughtUp(rules, ck, stream, lenFails, written, ownHead, look);
    if ok then WroteIfDue(rules, next, now, disk) else next
  }

  predicate CanClose(ck: Ck) { ck.head.Some? && ck.count != 0 }

  function Closed(rules: Rules, ck: Ck, stream: Bytes, look: Look, now: int, disk: Disk): (Ck, Option<nat>) {
    var (next, ok) := Advanced(rules, ck, stream, look);
    if !ok || !CanClose(next) then (next, None)
    else
      var (done, written) :=
        Wrote(rules, next, CloseKind, next.count, next.head.value, rules.hash(next.sum), now, disk);
      (done, if written then Some(next.count) else None)
  }

  /** What opening comes to: a writer, or an error that leaves the sidecar as given. */
  datatype Opening = Opened(ck: Ck) | Refused(sidecar: Bytes)

  /** The last line that can be named, with its head. `bad` holds the lines whose bytes
      cannot be read back. */
  function Nameable(rules: Rules, stream: Bytes, marks: seq<Mark>, bad: set<nat>): Option<(Mark, string)> {
    if marks == [] then None
    else
      var m := marks[|marks| - 1];
      var head := if m.line in bad then None else rules.HeadAt(stream, m);
      if head.Some? then Some((m, head.value)) else Nameable(rules, stream, marks[..|marks| - 1], bad)
  }

  /** What opening starts from. `bad` holds the lines whose bytes cannot be read back. */
  function Resumed(rules: Rules, side: Bytes, stream: Bytes, bad: set<nat>, now: int): Ck {
    var tail := TailOf(rules, side);
    var s := Scan(stream, 0, [], 0, RESUME_WINDOW);
    var head := if s.marks == [] || s.marks[|s.marks| - 1].line in bad then None
                else rules.HeadAt(stream, s.marks[|s.marks| - 1]);
    Ck(s.sum, s.off, s.count, head, tail.prev, 0, now, side[..tail.complete], tail.complete)
  }

  /** The stream is hashed from byte zero, the sidecar's torn end is cut, and the chain goes
      on from its last complete record. With `unchained` the exporter could not chain from the
      stream's tail, and a resume record names the last line that can be named. */
  function Opens(
    rules: Rules, side: Bytes, stream: Bytes, unchained: bool, scanFails: bool, bad: set<nat>, now: int, disk: Disk): Opening
  {
    if UnlikeOurs(side) then Refused(side)
    else
      var ck := Resumed(rules, side, stream, bad, now);
      if scanFails then Refused(ck.sidecar)
      else
        var named := Nameable(rules, stream, Scan(stream, 0, [], 0, RESUME_WINDOW).marks, bad);
        if !unchained || ck.count == 0 || named.None? then Opened(ck)
        else
          var (m, h) := named.value;
          var (done, ok) := Wrote(rules, ck, ResumeKind, m.line, h, rules.hash(m.sum), now, disk);
          if ok then Opened(done) else Refused(done.sidecar)
  }

  predicate EndsTorn(ck: Ck, stream: Bytes, look: Look) {
    !look.metaFails && |stream| != ck.off && stream != [] && !look.readFails && stream[|stream| - 1] != LF
  }

  // -------------------------------------------------------- the sidecar's tail

  datatype Tail = TooLong | Tail(prev: string, complete: nat, total: nat)

  /** The last 16 MiB hold fewer than two line ends, and are not the whole file. */
  predicate UnlikeOurs(side: Bytes) {
    |side| > SIDECAR_TAIL_CAP && Lines(side[|side| - SIDECAR_TAIL_CAP..]) < 2
  }

  /** What the tail of a sidecar is to say: the length of its complete records, and the
      hash of the last of them. */
  function TailOf(rules: Rules, side: Bytes): Tail {
    WholePart(side);
    Tail(rules.TailHash(side[..Whole(side)]), Whole(side), |side|)
  }

  /** The last line feed at or before the end of `s`, or `|s|` if there is none. */
  method FindLastLineFeed(s: Bytes) returns (i: nat)
    ensures i <= |s|
    ensures i < |s| ==> s[i] == LF && i + 1 == Whole(s)
    ensures i == |s| ==> Lines(s) == 0
  {
    i := |s|;
    assert s[..|s|] == s;
    while i > 0
      invariant i <= |s| && Whole(s) == Whole(s[..i]) && Lines(s) == Lines(s[..i])
    {
      assert s[..i][..i - 1] == s[..i - 1];
      i := i - 1;
      if s[i] == LF {
        assert s[..i + 1][..i] == s[..i];
        return;
      }
    }
    i := |s|;
  }

  /** The backward search, in windows that double. It gives up exactly when the last 16 MiB
      hold fewer than two line ends and are not the whole file; otherwise it finds the last
      complete record, wherever it starts. */
  method SidecarTail(rules: Rules, side: Bytes) returns (tail: Tail)
    ensures tail.TooLong? <==> UnlikeOurs(side)
    ensures !tail.TooLong? ==> tail == TailOf(rules, side)
  {
    if |side| == 0 {
      return Tail(GENESIS, 0, 0);
    }
    assert Doubled(0) == 1;
    hide TooNarrow, TailOf, UnlikeOurs, Doubled;
    var window: nat := FIRST_WINDOW;
    var found := SearchWindow(rules, side, window);
    ghost var k := 0;
    while found.None? && window < SIDECAR_TAIL_CAP
      invariant k <= 11 && window == FIRST_WINDOW * Doubled(k) && window <= SIDECAR_TAIL_CAP
      invariant found.None? <==> TooNarrow(side, window)
      invariant found.Some? ==> found.value == TailOf(rules, side)
      decreases 11 - k
    {
      DoubledAt(k);
      window := window * 2;
      k := k + 1;
      found := SearchWindow(rules, side, window);
    }
    if found.None? {
      return TooLong;
    }
    WiderIsEnough(side, window);
    return found.value;
  }

  /** Two line ends are not yet in the window, and there is more before it. */
  predicate TooNarrow(side: Bytes, window: nat) {
    |side| > window && Lines(side[|side| - window..]) < 2
  }

  lemma WiderIsEnough(side: Bytes, window: nat)
    requires !TooNarrow(side, window) && window <= SIDECAR_TAIL_CAP
    ensures !TooNarrow(side, SIDECAR_TAIL_CAP)
  {
    if |side| > SIDECAR_TAIL_CAP {
      var wide := side[|side| - SIDECAR_TAIL_CAP..];
      var k := SIDECAR_TAIL_CAP - window;
      assert wide[k..] == side[|side| - window..];
      assert wide == wide[..k] + wide[k..];
      LinesAppend(wide[..k], wide[k..]);
    }
  }

  /** One turn of the search: the tail, if the window shows it. */
  method SearchWindow(rules: Rules, side: Bytes, window: nat) returns (found: Option<Tail>)
    requires side != []
    ensures found.None? <==> TooNarrow(side, window)
    ensures found.Some? ==> found.value == TailOf(rules, side)
  {
    hide LastLine, Lines, Whole;
    var total := |side|;
    var start := if window < total then total - window else 0;
    var buf := side[start..];
    var last := FindLastLineFeed(buf);
    if last == |buf| {
      if start == 0 {
        assert buf == side && side[..0] == [];
        ZeroLines(side);
        return Some(Tail(GENESIS, 0, total));
      }
      return None;
    }
    var complete := start + last + 1;
    var before := buf[..last];
    var j := FindLastLineFeed(before);
    WindowLines(buf, last);
    LastLineOf(side, start, last);
    if j < |before| {
      assert Lines(before) > 0 by { NoLineFeed(before); }
      return Some(Tail(rules.hash(buf[j + 1..last]), complete, total));
    }
    if start == 0 {
      assert side[..start] == [];
      assert side[0..start + last] == buf[..last];
      return Some(Tail(rules.hash(buf[..last]), complete, total));
    }
    return None;
  }

  function Doubled(k: nat): nat {
    if k == 0 then 1 else 2 * Doubled(k - 1)
  }

  lemma DoubledAt(k: nat)
    requires k <= 11 && FIRST_WINDOW * Doubled(k) < SIDECAR_TAIL_CAP
    ensures k < 11 && FIRST_WINDOW * Doubled(k + 1) <= SIDECAR_TAIL_CAP
  {
    assert Doubled(2) == 4 && Doubled(4) == 16 && Doubled(6) == 64 && Doubled(8) == 256 && Doubled(10) == 1024;
    assert Doubled(1) == 2 && Doubled(3) == 8 && Doubled(5) == 32 && Doubled(7) == 128 && Doubled(9) == 512;
    assert Doubled(11) == 2048;
  }

  /** What the last line feed of a window says of the window. */
  lemma WindowLines(buf: Bytes, last: nat)
    requires last < |buf| && buf[last] == LF && last + 1 == Whole(buf)
    ensures Lines(buf) == 1 + Lines(buf[..last])
  {
    WholePart(buf);
    assert buf[..last + 1][..last] == buf[..last];
  }

  /** ... and of the whole file: where its whole lines end ... */
  lemma WholeOf(side: Bytes, start: nat, last: nat)
    requires start <= |side|
    requires var buf := side[start..]; last < |buf| && last + 1 == Whole(buf)
    ensures Whole(side) == start + last + 1
  {
    hide Lines, Whole;
    var front, buf := side[..start], side[start..];
    assert side == front + buf;
    LinesAppend(front, buf);
  }

  /** ... and where the last of them starts. */
  lemma LastLineOf(side: Bytes, start: nat, last: nat)
    requires start <= |side|
    requires var buf := side[start..]; last < |buf| && buf[last] == LF && last + 1 == Whole(buf)
    ensures Whole(side) == start + last + 1
    ensures IsWhole(side[..start + last + 1])
    ensures var before := side[start..][..last];
            LastLine(side[..start + last + 1])
              == if Lines(before) > 0 then side[start..][Whole(before)..last] else side[Whole(side[..start])..start + last]
  {
    hide Lines, Whole;
    WholeOf(side, start, last);
    WholePart(side);
    var front, buf := side[..start], side[start..];
    var before, whole := buf[..last], side[..start + last + 1];
    CutsAgree(side, start, last);
    LinesAppend(front, before);
    assert whole[..|whole| - 1] == front + before;
    if Lines(before) > 0 {
      SliceOfRest(side, start, Whole(before), last);
    }
  }

  lemma SliceOfRest<T>(s: seq<T>, start: nat, from: nat, last: nat)
    requires from <= last && start + last < |s|
    ensures s[..start + last + 1][start + from..start + last] == s[start..][from..last]
  {
  }

  lemma CutsAgree<T>(s: seq<T>, start: nat, last: nat)
    requires start + last < |s|
    ensures var whole := s[..start + last + 1]; whole[..|whole| - 1] == s[..start] + s[start..][..last]
  {
  }

  // ---------------------------------------------------------------- the writer

  class Checkpointer {
    const rules: Rules
    var sum: Bytes
    var off: nat
    var count: nat
    var head: Option<string>
    var prev: string
    var pending: nat
    var lastAt: int
    var sidecar: Bytes
    var sidecarLen: nat

    ghost function State(): Ck
      reads this
    {
      Ck(sum, off, count, head, prev, pending, lastAt, sidecar, sidecarLen)
    }

    constructor (rules: Rules, s: Scanned, head: Option<string>, tail: Tail, now: int, kept: Bytes)
      requires tail.Tail?
      ensures this.rules == rules
      ensures State() == Ck(s.sum, s.off, s.count, head, tail.prev, 0, now, kept, tail.complete)
    {
      this.rules := rules;
      sum, off, count, this.head := s.sum, s.off, s.count, head;
      prev, pending, lastAt, sidecar, sidecarLen := tail.prev, 0, now, kept, tail.complete;
    }

    static method Open(
      rules: Rules, side: Bytes, stream: Bytes, unchained: bool, scanFails: bool, bad: set<nat>, now: int, disk: Disk)
      returns (ck: Checkpointer?, left: Bytes)
      ensures ck != null ==> fresh(ck) && ck.rules == rules
      ensures match Opens(rules, side, stream, unchained, scanFails, bad, now, disk)
              case Opened(state) => ck != null && ck.State() == state
              case Refused(kept) => ck == null && left == kept
    {
      hide TailOf, UnlikeOurs, Wrote, Scan;
      var tail := SidecarTail(rules, side);
      if tail.TooLong? {
        return null, side;
      }
      TailIsTail(rules, side);
      left := if tail.total > tail.complete then side[..tail.complete] else side;
      if scanFails {
        return null, left;
      }
      var s := ScanChunks(stream, 0, [], 0, RESUME_WINDOW);
      var head := None;
      if s.marks != [] && s.marks[|s.marks| - 1].line !in bad {
        head := rules.HeadAt(stream, s.marks[|s.marks| - 1]);
      }
      var writer := new Checkpointer(rules, s, head, tail, now, left);
      if unchained && s.count > 0 {
        var named := FindNameable(rules, stream, s.marks, bad);
        if named.Some? {
          var (m, h) := named.value;
          var ok := writer.WriteRecord(ResumeKind, m.line, h, rules.hash(m.sum), now, disk);
          if !ok {
            return null, writer.sidecar;
          }
        }
      }
      ck := writer;
    }

    method NeedsNewline(stream: Bytes, look: Look) returns (b: bool)
      ensures b == EndsTorn(State(), stream, look)
    {
      if look.metaFails || |stream| == off || |stream| == 0 || look.readFails {
        return false;
      }
      b := stream[|stream| - 1] != LF;
    }

    method AfterAppend(stream: Bytes, lenFails: bool, written: Bytes, ownHead: Option<string>, look: Look, now: int, disk: Disk)
      modifies this
      ensures State() == Appended(rules, old(State()), stream, lenFails, written, ownHead, look, now, disk)
    {
      hide Advanced, WroteIfDue;
      if !lenFails && |stream| == off + |written| && EndsWithLf(written) {
        sum, off := sum + written, |stream|;
        var lines := CountLines(written);
        count, pending, head := count + lines, pending + lines, ownHead;
      } else {
        var ok := Advance(stream, look);
        if !ok {
          return;
        }
      }
      MaybeWrite(now, disk);
    }

    method Advance(stream: Bytes, look: Look) returns (ok: bool)
      modifies this
      ensures (State(), ok) == Advanced(rules, old(State()), stream, look)
    {
      hide Scan, Marks;
      if look.metaFails {
        return false;
      }
      if |stream| < off {
        sum, off, count, head := [], 0, 0, None;
      }
      if |stream| == off {
        return true;
      }
      if look.readFails {
        return false;
      }
      ScanCounts(stream, off, sum, count, 1);
      var s := ScanChunks(stream, off, sum, count, 1);
      var added := s.count - count;
      if added > 0 {
        head := None;
        if !look.headFails && s.marks != [] {
          head := rules.HeadAt(stream, s.marks[|s.marks| - 1]);
        }
      }
      sum, off, count, pending := s.sum, s.off, s.count, pending + added;
      ok := true;
    }

    method Tick(now: int, disk: Disk)
      modifies this
      ensures State() == WroteIfDue(rules, old(State()), now, disk)
    {
      MaybeWrite(now, disk);
    }

    method MaybeWrite(now: int, disk: Disk)
      modifies this
      ensures State() == WroteIfDue(rules, old(State()), now, disk)
    {
      if pending == 0 {
        return;
      }
      if pending < EVERY_LINES && now - lastAt < INTERVAL_MILLIS {
        return;
      }
      if head.None? {
        return;
      }
      var _ := WriteRecord(PeriodicKind, count, head.value, rules.hash(sum), now, disk);
    }

    method Close(stream: Bytes, look: Look, now: int, disk: Disk) returns (named: Option<nat>)
      modifies this
      ensures (State(), named) == Closed(rules, old(State()), stream, look, now, disk)
    {
      hide Advanced, Wrote;
      var ok := Advance(stream, look);
      if !ok || head.None? || count == 0 {
        return None;
      }
      WroteKeeps(rules, State(), CloseKind, count, head.value, rules.hash(sum), now, disk);
      var wrote := WriteRecord(CloseKind, count, head.value, rules.hash(sum), now, disk);
      named := if wrote then Some(count) else None;
    }

    method WriteRecord(kind: Kind, count: nat, head: string, prefix: string, now: int, disk: Disk) returns (ok: bool)
      modifies this
      ensures (State(), ok) == Wrote(rules, old(State()), kind, count, head, prefix, now, disk)
    {
      var encoded := rules.encode(Fields(kind, count, head, prefix, now, prev));
      if encoded.None? {
        return false;
      }
      var record := encoded.value;
      if |record| > RECORD_CAP {
        return false;
      }
      var line := record + [LF];
      match disk
      case Tears(kept, cut) =>
        sidecar := sidecar + if kept <= |line| then line[..kept] else line;
        if cut && sidecarLen <= |sidecar| {
          sidecar := sidecar[..sidecarLen];
        }
        return false;
      case Writes =>
        sidecar := sidecar + line;
        sidecarLen := sidecarLen + |line|;
        prev, lastAt, pending := rules.hash(record), now, 0;
        ok := true;
    }
  }

  /** Writing a record leaves what is known of the stream. */
  lemma WroteKeeps(rules: Rules, ck: Ck, kind: Kind, count: nat, head: string, prefix: string, now: int, disk: Disk)
    ensures var next := Wrote(rules, ck, kind, count, head, prefix, now, disk).0;
            next.sum == ck.sum && next.off == ck.off && next.count == ck.count && next.head == ck.head
  {
  }

  lemma TailIsTail(rules: Rules, side: Bytes)
    ensures TailOf(rules, side).Tail?
    ensures TailOf(rules, side).complete == Whole(side) && TailOf(rules, side).total == |side|
    ensures Whole(side) == |side| ==> side[..Whole(side)] == side
  {
  }

  lemma ScanCounts(file: Bytes, start: nat, sum: Bytes, count: nat, keep: nat)
    ensures start <= |file| ==> Scan(file, start, sum, count, keep).count == count + Lines(file[start..])
  {
  }

  method CountLines(s: Bytes) returns (n: nat)
    ensures n == Lines(s)
  {
    n := 0;
    for i := 0 to |s|
      invariant n == Lines(s[..i])
    {
      assert s[..i + 1][..i] == s[..i];
      n := n + if s[i] == LF then 1 else 0;
    }
    assert s[..|s|] == s;
  }

  method FindNameable(rules: Rules, stream: Bytes, marks: seq<Mark>, bad: set<nat>) returns (r: Option<(Mark, string)>)
    ensures r == Nameable(rules, stream, marks, bad)
  {
    var i := |marks|;
    assert marks[..i] == marks;
    while i > 0
      invariant i <= |marks|
      invariant Nameable(rules, stream, marks, bad) == Nameable(rules, stream, marks[..i], bad)
    {
      assert marks[..i][..i - 1] == marks[..i - 1];
      i := i - 1;
      var head := if marks[i].line in bad then None else rules.HeadAt(stream, marks[i]);
      if head.Some? {
        return Some((marks[i], head.value));
      }
    }
    r := None;
  }
}
