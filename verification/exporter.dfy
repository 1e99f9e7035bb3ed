/** The event exporter (crates/core/src/agent_event.rs): one file of event lines, each
    carrying the hash of the event before it, through failed writes and reopenings.

    An event is given by its body, the canonical text without `prev_hash`; its chain hash
    is the digest of the body. */
module Exporter {
  import opened Wrappers
  import opened Stream
  import opened Checkpoint
  import opened CheckpointRuns
  import opened CheckpointProgress

  const WINDOW: nat := 0x10_0000

  /** What reading a line as a JSON object finds. */
  datatype Link = Link(prev: Option<string>, body: Bytes)

  datatype Format = Format(
    line: (Bytes, Option<string>) -> Option<Bytes>, read: Bytes -> Option<Link>, hash: Bytes -> string)
  {
    /** A line is one line, reads back as the event it was written for, and no shorter
        beginning of it reads as an object. */
    ghost predicate WritesObjects() {
      forall body, prev :: line(body, prev).Some? ==> IsObjectLine(line(body, prev).value, Link(prev, body))
    }

    /** No line reads as an object with something other than space before it. A JSON object's
        text begins with a brace and the quote of a key, which no JSON text goes on with. */
    ghost predicate NothingGlues() {
      forall front, body, prev :: line(body, prev).Some? && Lines(front) == 0 && !Blank(front) ==>
        ReadLine(front + line(body, prev).value) == None
    }

    ghost predicate IsObjectLine(l: Bytes, link: Link) {
      Lines(l) == 0 && ReadLine(l) == Some(link) && forall k: nat :: k < |l| ==> ReadLine(l[..k]) == None
    }

    function ReadLine(l: Bytes): Option<Link> {
      if Trim(l) == [] then None else read(Trim(l))
    }
  }

  predicate IsSpace(b: byte) { b == 32 || b == 9 || b == 10 || b == 12 || b == 13 }

  predicate Blank(s: Bytes) { forall i :: 0 <= i < |s| ==> IsSpace(s[i]) }

  function TrimLeft(s: Bytes): (t: Bytes)
    ensures |t| <= |s|
  {
    if s != [] && IsSpace(s[0]) then TrimLeft(s[1..]) else s
  }

  function TrimRight(s: Bytes): (t: Bytes)
    ensures |t| <= |s|
  {
    if s != [] && IsSpace(s[|s| - 1]) then TrimRight(s[..|s| - 1]) else s
  }

  function Trim(s: Bytes): Bytes { TrimRight(TrimLeft(s)) }

  // ------------------------------------------------------------------- emitting

  datatype Sink = Sink(stream: Bytes, next: Option<string>, ck: Option<Ck>)

  /** How the write of a line goes: all of it, or an error after `kept` bytes. */
  datatype Write = Lands | Breaks(kept: nat)

  datatype Outcome = SkippedNoAgentId | Written | WriteError

  /** Everything one emit meets on the way. */
  datatype Weather = Weather(newline: Look, write: Write, lenFails: bool, look: Look, now: int, disk: Disk)

  /** A line feed goes first: there is a sidecar, and its look at the stream's end finds a
      fragment. A look that fails finds none. */
  predicate PutsLineFeed(s: Sink, newline: Look) { s.ck.Some? && EndsTorn(s.ck.value, s.stream, newline) }

  /** The bytes an emit hands to the file. */
  function Text(s: Sink, line: Bytes, newline: Look): (text: Bytes)
    ensures EndsWithLf(text)
  {
    (if PutsLineFeed(s, newline) then [LF] else []) + line + [LF]
  }

  function Landed(text: Bytes, write: Write): Bytes
    requires text != []
  {
    match write
    case Lands => text
    case Breaks(kept) => if kept < |text| then text[..kept] else text[..|text| - 1]
  }

  function Emitted(format: Format, rules: Rules, s: Sink, event: Option<Bytes>, w: Weather): (Sink, Outcome) {
    match event
    case None => (s, SkippedNoAgentId)
    case Some(body) =>
      match format.line(body, s.next)
      case None => (s, WriteError)
      case Some(line) =>
        var text := Text(s, line, w.newline);
        var stream := s.stream + Landed(text, w.write);
        if w.write.Breaks? then (s.(stream := stream), WriteError)
        else
          var next := Some(format.hash(body));
          (Sink(stream, next,
                if s.ck.None? then None
                else Some(Appended(rules, s.ck.value, stream, w.lenFails, text, next, w.look, w.now, w.disk))),
           Written)
  }

  // -------------------------------------------------------------- the file's tail

  /** The last line of `buf` that is not blank, the unfinished one at the end included;
      with `cut` the first line is only the end of one, and does not count. */
  function LastWorded(buf: Bytes, cut: bool): Option<Bytes>
    decreases |buf|
  {
    var k := Whole(buf);
    var piece := Trim(buf[k..]);
    if piece != [] && (k > 0 || !cut) then Some(piece)
    else if k > 0 then LastWorded(buf[..k - 1], cut)
    else None
  }

  function TailChain(format: Format, file: Bytes): Option<string> {
    var start := if |file| > WINDOW then |file| - WINDOW else 0;
    match LastWorded(file[start..], start > 0)
    case None => None
    case Some(piece) =>
      match format.read(piece)
      case None => None
      case Some(link) => Some(format.hash(link.body))
  }

  method TailChainHash(format: Format, file: Bytes, fails: bool) returns (h: Option<string>)
    ensures h == if fails then None else TailChain(format, file)
  {
    if fails || |file| == 0 {
      return None;
    }
    var start := if |file| > WINDOW then |file| - WINDOW else 0;
    var buf := file[start..];
    var last := LastPiece(buf, start > 0);
    if last.None? {
      return None;
    }
    var link := format.read(last.value);
    h := if link.None? then None else Some(format.hash(link.value.body));
  }

  /** Line by line from the front, keeping the last one that is not blank. */
  method LastPiece(buf: Bytes, cut: bool) returns (last: Option<Bytes>)
    ensures last == LastWorded(buf, cut)
  {
    last := None;
    var from := 0;
    var i := 0;
    while true
      invariant from <= |buf| && (i == 0 <==> from == 0)
      invariant from > 0 ==> buf[from - 1] == LF && last == LastWorded(buf[..from - 1], cut)
      invariant from == 0 ==> last == None
      decreases |buf| - from
    {
      hide LastWorded, Trim;
      var n := FindLineFeed(buf[from..]);
      var line := buf[from..][..n];
      NextPiece(buf, cut, from, n);
      if !(i == 0 && cut) {
        var trimmed := Trim(line);
        if trimmed != [] {
          last := Some(trimmed);
        }
      }
      if from + n == |buf| {
        assert buf[..from + n] == buf;
        return;
      }
      from := from + n + 1;
      i := i + 1;
    }
  }

  lemma NextPiece(buf: Bytes, cut: bool, from: nat, n: nat)
    requires from <= |buf| && n <= |buf[from..]| && Lines(buf[from..][..n]) == 0
    requires from > 0 ==> buf[from - 1] == LF
    ensures LastWorded(buf[..from + n], cut)
         == if Trim(buf[from..][..n]) != [] && (from > 0 || !cut) then Some(Trim(buf[from..][..n]))
            else if from > 0 then LastWorded(buf[..from - 1], cut)
            else None
  {
    hide Trim, Lines;
    var front, piece, all := buf[..from], buf[from..][..n], buf[..from + n];
    assert all == front + piece;
    LinesAppend(front, piece);
    assert Whole(front) == from;
    assert all[from..] == piece;
    if from > 0 { assert all[..from - 1] == buf[..from - 1]; }
  }

  // ------------------------------------------------------------------ the chain

  /** The hash the next event line is to carry after some whole lines: that of the last
      line that reads as an object, or `start` if there is none. */
  function LastHash(format: Format, s: Bytes, start: Option<string>): Option<string>
    requires IsWhole(s)
    decreases |s|
  {
    if s == [] then start
    else
      match format.ReadLine(LastLine(s))
      case Some(link) => Some(format.hash(link.body))
      case None => LastHash(format, Before(s), start)
  }

  /** No fork: every line that reads as an object carries the hash of the one before it. */
  ghost predicate Linked(format: Format, s: Bytes, start: Option<string>)
    requires IsWhole(s)
    decreases |s|
  {
    s == []
    || (Linked(format, Before(s), start)
        && (format.ReadLine(LastLine(s)).Some? ==>
              format.ReadLine(LastLine(s)).value.prev == LastHash(format, Before(s), start)))
  }

  function Finished(s: Bytes): (f: Bytes)
    ensures IsWhole(f)
  {
    WholePart(s);
    s[..Whole(s)]
  }

  function Fragment(s: Bytes): Bytes { s[Whole(s)..] }

  /** The writer's offset is a line end of the stream. */
  ghost predicate AtStreamLineEnd(rules: Rules, ck: Ck, stream: Bytes) {
    Exact(rules, ck.(head := None)) && ck.sum <= stream
  }

  /** What every emit keeps: the finished lines are one chain, `next` continues it, the
      fragment after them is no event, and the sidecar's offset is a line end. */
  ghost predicate OneChain(format: Format, rules: Rules, s: Sink, start: Option<string>) {
    && Linked(format, Finished(s.stream), start)
    && s.next == LastHash(format, Finished(s.stream), start)
    && format.ReadLine(Fragment(s.stream)) == None
    && s.ck.Some?
    && AtStreamLineEnd(rules, s.ck.value, s.stream)
  }

  // ... how one more line, or part of one, changes it

  lemma OneMore(format: Format, s: Bytes, line: Bytes, start: Option<string>)
    requires IsWhole(s) && Lines(line) == 0
    ensures var more := s + line + [LF];
            && IsWhole(more)
            && (Linked(format, more, start) <==>
                  Linked(format, s, start)
                  && (format.ReadLine(line).Some? ==> format.ReadLine(line).value.prev == LastHash(format, s, start)))
            && LastHash(format, more, start)
                 == match format.ReadLine(line) {
                      case Some(link) => Some(format.hash(link.body))
                      case None => LastHash(format, s, start)
                    }
  {
    hide Lines, Whole, LastLine, Before, Format.ReadLine;
    BeforeAppended(s, line);
  }

  lemma FinishedAndFragment(s: Bytes)
    ensures s == Finished(s) + Fragment(s) && Lines(Fragment(s)) == 0
  {
    WholePart(s);
  }

  lemma FinishedOf(done: Bytes, frag: Bytes)
    requires IsWhole(done) && Lines(frag) == 0
    ensures Finished(done + frag) == done && Fragment(done + frag) == frag
  {
    LinesAppend(done, frag);
  }

  /** With the end of the stream looked at, a line feed goes first exactly when there is a
      fragment to separate from. */
  lemma NewlineWhenTorn(rules: Rules, ck: Ck, stream: Bytes, look: Look)
    requires AtStreamLineEnd(rules, ck, stream) && !look.metaFails && !look.readFails
    ensures EndsTorn(ck, stream, look) <==> Fragment(stream) != []
  {
    hide Lines, Rules.HeadOf;
    if |stream| == ck.off { assert stream == ck.sum; }
  }

  /** The finished lines once the fragment, if any, has been ended. */
  function Ended(s: Bytes): (e: Bytes)
    ensures IsWhole(e)
  {
    FinishedAndFragment(s);
    if Fragment(s) == [] then Finished(s) else Finished(s) + Fragment(s) + [LF]
  }

  /** Ending a fragment that is no event changes nothing of the chain. */
  lemma EndedIsLinked(format: Format, s: Bytes, start: Option<string>)
    requires format.ReadLine(Fragment(s)) == None
    ensures Linked(format, Ended(s), start) <==> Linked(format, Finished(s), start)
    ensures LastHash(format, Ended(s), start) == LastHash(format, Finished(s), start)
  {
    hide Lines, Whole, Linked, LastHash, Finished, Fragment, Format.ReadLine;
    FinishedAndFragment(s);
    if Fragment(s) != [] { OneMore(format, Finished(s), Fragment(s), start); }
  }

  /** What the stream is after a line that got through, and after one that did not. */
  lemma StreamAfter(s: Sink, rules: Rules, line: Bytes, newline: Look, write: Write)
    requires s.ck.Some? && AtStreamLineEnd(rules, s.ck.value, s.stream) && !newline.metaFails && !newline.readFails
    requires Lines(line) == 0
    ensures var landed := s.stream + Landed(Text(s, line, newline), write);
            if write.Lands? then landed == Ended(s.stream) + line + [LF]
            else landed == s.stream || exists k: nat :: k <= |line| && landed == Ended(s.stream) + line[..k]
  {
    hide AtStreamLineEnd, EndsTorn, Fragment, Lines, Ended;
    NewlineWhenTorn(rules, s.ck.value, s.stream, newline);
    EndedIs(s.stream);
    var torn := Fragment(s.stream) != [];
    if write.Lands? {
      AllOfText(s.stream, line, torn);
    } else {
      PartOfText(s.stream, line, |Landed(Text(s, line, newline), write)|, torn);
    }
  }

  lemma EndedIs(s: Bytes)
    ensures Ended(s) == s + if Fragment(s) != [] then [LF] else []
  {
    FinishedAndFragment(s);
  }

  lemma AllOfText(stream: Bytes, line: Bytes, torn: bool)
    ensures var lead := if torn then [LF] else []; stream + (lead + line + [LF]) == stream + lead + line + [LF]
  {
  }

  lemma PartOfText(stream: Bytes, line: Bytes, kept: nat, torn: bool)
    requires kept <= |(if torn then [LF] else []) + line|
    ensures var text := (if torn then [LF] else []) + line + [LF];
            var ended := stream + if torn then [LF] else [];
            if torn && kept == 0 then stream + text[..kept] == stream
            else
              var k := if torn then kept - 1 else kept;
              k <= |line| && stream + text[..kept] == ended + line[..k]
  {
  }

  // ----------------------------------------------- what the sidecar's offset does

  lemma AdvancedIgnoresHead(rules: Rules, ck: Ck, stream: Bytes, look: Look)
    ensures var (a, b) := (Advanced(rules, ck, stream, look), Advanced(rules, ck.(head := None), stream, look));
            a.0.(head := None) == b.0.(head := None) && a.1 == b.1
  {
    hide Scan, Rules.HeadAt;
  }

  lemma WritingLeavesTheLineEnd(rules: Rules, ck: Ck, now: int, disk: Disk, stream: Bytes)
    requires AtStreamLineEnd(rules, ck, stream)
    ensures AtStreamLineEnd(rules, WroteIfDue(rules, ck, now, disk), stream)
  {
    hide Lines, Whole, Rules.HeadOf;
    if ck.head.Some? {
      WroteKeeps(rules, ck, PeriodicKind, ck.count, ck.head.value, rules.hash(ck.sum), now, disk);
      hide Wrote;
    }
  }

  lemma AppendedAtLineEnd(
    rules: Rules, ck: Ck, stream: Bytes, text: Bytes, lenFails: bool, ownHead: Option<string>,
    look: Look, now: int, disk: Disk)
    requires AtStreamLineEnd(rules, ck, stream)
    ensures AtStreamLineEnd(rules, Appended(rules, ck, stream + text, lenFails, text, ownHead, look, now, disk), stream + text)
  {
    hide Lines, Whole, Rules.HeadOf, Advanced, WroteIfDue;
    var to := stream + text;
    var bare := ck.(head := None);
    assert ck.sum <= to;
    if !lenFails && GrewBy(ck, to, text) {
      assert ck.sum == stream;
      HashedIsExact(rules, bare, text, None);
      WritingLeavesTheLineEnd(rules, Hashed(ck, text, ownHead), now, disk, to);
    } else {
      AdvancedIgnoresHead(rules, ck, to, look);
      AdvancedIsExact(rules, bare, to, look);
      AdvancedIsPrefix(rules, bare, to, look);
      var next := Advanced(rules, ck, to, look).0;
      WritingLeavesTheLineEnd(rules, next, now, disk, to);
    }
  }

  // ---------------------------------------------------------------- no fork

  /** The write stopped just before the line's own line feed. */
  predicate BreaksAtLineFeed(format: Format, s: Sink, event: Option<Bytes>, w: Weather) {
    match event
    case None => false
    case Some(body) =>
      match format.line(body, s.next)
      case None => false
      case Some(line) => w.write.Breaks? && w.write.kept >= |Text(s, line, w.newline)| - 1
  }

  /** An emit keeps the one chain, whatever happens to its write, if and only if that write
      does not stop exactly before its line feed. */
  lemma EmitKeepsOneChain(
    format: Format, rules: Rules, s: Sink, event: Option<Bytes>, w: Weather, start: Option<string>)
    requires format.WritesObjects() && OneChain(format, rules, s, start)
    requires !w.newline.metaFails && !w.newline.readFails
    ensures OneChain(format, rules, Emitted(format, rules, s, event, w).0, start)
       <==> !BreaksAtLineFeed(format, s, event, w)
  {
    hide OneChain, Format.WritesObjects, Text, Appended;
    if event.Some? && format.line(event.value, s.next).Some? {
      if w.write.Lands? { LandedKeeps(format, rules, s, event.value, w, start); }
      else { BrokenKeeps(format, rules, s, event.value, w, start); }
    }
  }

  lemma LineIsObject(format: Format, body: Bytes, prev: Option<string>)
    ensures format.WritesObjects() && format.line(body, prev).Some? ==>
              format.IsObjectLine(format.line(body, prev).value, Link(prev, body))
  {
  }

  lemma NothingReads(format: Format)
    ensures format.ReadLine([]) == None
  {
  }

  lemma LandedKeeps(format: Format, rules: Rules, s: Sink, body: Bytes, w: Weather, start: Option<string>)
    requires format.WritesObjects() && OneChain(format, rules, s, start)
    requires !w.newline.metaFails && !w.newline.readFails
    requires format.line(body, s.next).Some? && w.write.Lands?
    ensures OneChain(format, rules, Emitted(format, rules, s, Some(body), w).0, start)
  {
    hide Format.WritesObjects, Linked, LastHash, AtStreamLineEnd, Lines, Format.ReadLine, Appended, EndsTorn, Finished, Fragment, Ended;
    var line := format.line(body, s.next).value;
    LineIsObject(format, body, s.next);
    StreamAfter(s, rules, line, w.newline, w.write);
    EndedIsLinked(format, s.stream, start);
    OneMore(format, Ended(s.stream), line, start);
    var text := Text(s, line, w.newline);
    var to := s.stream + text;
    WholeSlice(to);
    WholeIsFinished(to);
    NothingReads(format);
    AppendedAtLineEnd(rules, s.ck.value, s.stream, text, w.lenFails, Some(format.hash(body)), w.look, w.now, w.disk);
  }

  lemma WholeIsFinished(s: Bytes)
    ensures IsWhole(s) ==> Finished(s) == s && Fragment(s) == []
  {
  }

  lemma BrokenKeeps(format: Format, rules: Rules, s: Sink, body: Bytes, w: Weather, start: Option<string>)
    requires format.WritesObjects() && OneChain(format, rules, s, start)
    requires !w.newline.metaFails && !w.newline.readFails
    requires format.line(body, s.next).Some? && w.write.Breaks?
    ensures OneChain(format, rules, Emitted(format, rules, s, Some(body), w).0, start)
       <==> !BreaksAtLineFeed(format, s, Some(body), w)
  {
    hide Format.WritesObjects, Linked, LastHash, Exact, Lines, Format.ReadLine, EndsTorn, Finished, Fragment, Ended;
    var line := format.line(body, s.next).value;
    LineIsObject(format, body, s.next);
    StreamAfter(s, rules, line, w.newline, w.write);
    EndedIsLinked(format, s.stream, start);
    EndedIs(s.stream);
    NewlineWhenTorn(rules, s.ck.value, s.stream, w.newline);
    var text := Text(s, line, w.newline);
    var to := s.stream + Landed(text, w.write);
    if to != s.stream {
      var k: nat :| k <= |line| && to == Ended(s.stream) + line[..k];
      Parts(line, k);
      LinesAppend(line[..k], line[k..]);
      FinishedOf(Ended(s.stream), line[..k]);
      assert k == |line| <==> line[..k] == line;
    }
  }

  lemma {:induction false} BlankTrims(front: Bytes, s: Bytes)
    requires Blank(front)
    ensures TrimLeft(front + s) == TrimLeft(s)
  {
    if front == [] {
      assert front + s == s;
    } else {
      assert (front + s)[1..] == front[1..] + s;
      BlankTrims(front[1..], s);
    }
  }

  /** Where no line feed was put first, for want of a sidecar or of a look that succeeds, a
      line is glued to a fragment before it: the file stays the one chain that `next`
      continues if and only if the fragment was blank, or the event before had this one's
      hash. */
  lemma GluedWithoutLineFeed(format: Format, rules: Rules, s: Sink, body: Bytes, w: Weather, start: Option<string>)
    requires format.WritesObjects() && format.NothingGlues()
    requires !PutsLineFeed(s, w.newline) && format.line(body, s.next).Some? && w.write.Lands?
    requires Linked(format, Finished(s.stream), start) && s.next == LastHash(format, Finished(s.stream), start)
    ensures var after := Emitted(format, rules, s, Some(body), w).0;
            && IsWhole(after.stream)
            && (Linked(format, after.stream, start) && after.next == LastHash(format, after.stream, start) <==>
                  Blank(Fragment(s.stream)) || s.next == Some(format.hash(body)))
  {
    hide Format.WritesObjects, Format.NothingGlues, Format.ReadLine, Linked, LastHash, Lines, Whole, Finished, Fragment,
         Blank, Emitted, PutsLineFeed;
    var line, front := format.line(body, s.next).value, Fragment(s.stream);
    EmittedGlued(format, rules, s, body, w);
    GluedReads(format, front, body, s.next);
    OneMore(format, Finished(s.stream), front + line, start);
  }

  lemma EmittedGlued(format: Format, rules: Rules, s: Sink, body: Bytes, w: Weather)
    requires !PutsLineFeed(s, w.newline) && format.line(body, s.next).Some? && w.write.Lands?
    ensures var after := Emitted(format, rules, s, Some(body), w).0;
            && after.next == Some(format.hash(body))
            && after.stream == Finished(s.stream) + (Fragment(s.stream) + format.line(body, s.next).value) + [LF]
    ensures Lines(Fragment(s.stream)) == 0
  {
    hide Lines, Whole, Finished, Fragment, EndsTorn, Appended, PutsLineFeed;
    FinishedAndFragment(s.stream);
    var line := format.line(body, s.next).value;
    assert [] + line + [LF] == line + [LF];
  }

  lemma GluedReads(format: Format, front: Bytes, body: Bytes, prev: Option<string>)
    requires format.WritesObjects() && format.NothingGlues() && format.line(body, prev).Some? && Lines(front) == 0
    ensures var glued := front + format.line(body, prev).value;
            Lines(glued) == 0 && format.ReadLine(glued) == if Blank(front) then Some(Link(prev, body)) else None
  {
    hide Format.WritesObjects, Format.NothingGlues, Blank, Lines;
    LineIsObject(format, body, prev);
    LinesAppend(front, format.line(body, prev).value);
    if Blank(front) {
      BlankTrims(front, format.line(body, prev).value);
    } else {
      NothingReadsGlued(format, front, body, prev);
    }
  }

  lemma NothingReadsGlued(format: Format, front: Bytes, body: Bytes, prev: Option<string>)
    requires format.NothingGlues() && format.line(body, prev).Some? && Lines(front) == 0 && !Blank(front)
    ensures format.ReadLine(front + format.line(body, prev).value) == None
  {
  }

  // "{}", the one line of a format with one event.
  const BRACES: Bytes := [123, 125]
  const ONE_EVENT := Format(
    (body: Bytes, prev: Option<string>) => if body == [49] && prev == None then Some(BRACES) else None,
    (text: Bytes) => if text == BRACES then Some(Link(None, [49])) else None,
    (body: Bytes) => "h")

  lemma {:induction false} NotBlankTrims(front: Bytes, s: Bytes)
    requires !Blank(front)
    ensures TrimLeft(front + s) == TrimLeft(front) + s && TrimLeft(front) != []
  {
    if IsSpace(front[0]) {
      assert (front + s)[1..] == front[1..] + s;
      NotBlankTrims(front[1..], s);
    }
  }

  lemma BracesRead(front: Bytes)
    ensures ONE_EVENT.ReadLine(front + BRACES) == if Blank(front) then Some(Link(None, [49])) else None
  {
    var text := front + BRACES;
    assert TrimLeft(BRACES) == BRACES && TrimRight(BRACES) == BRACES;
    if Blank(front) {
      BlankTrims(front, BRACES);
    } else {
      NotBlankTrims(front, BRACES);
      var left := TrimLeft(text);
      assert left[|left| - 1] == 125 && TrimRight(left) == left && |left| > 2;
    }
  }

  /** The format of one event is one of those spoken of. */
  lemma OneEventIsAFormat()
    ensures ONE_EVENT.WritesObjects() && ONE_EVENT.NothingGlues()
  {
    forall front ensures ONE_EVENT.ReadLine(front + BRACES) == if Blank(front) then Some(Link(None, [49])) else None {
      BracesRead(front);
    }
    NoLineFeed(BRACES);
    assert [] + BRACES == BRACES;
    forall k: nat | k < 2 ensures ONE_EVENT.ReadLine(BRACES[..k]) == None {
      ShortReadsNothing(BRACES[..k]);
    }
  }

  lemma ShortReadsNothing(l: Bytes)
    requires |l| < 2
    ensures ONE_EVENT.ReadLine(l) == None
  {
    assert |Trim(l)| < |BRACES|;
  }

  /** A fragment of one brace, left by a failed write: the next event is on disk as no event,
      and the one after it will carry its hash all the same. */
  lemma GluedEventIsLost(rules: Rules, ck: Option<Ck>, w: Weather)
    requires w.write.Lands? && !PutsLineFeed(Sink([123], None, ck), w.newline)
    ensures var after := Emitted(ONE_EVENT, rules, Sink([123], None, ck), Some([49]), w).0;
            && IsWhole(after.stream) && after.stream == [123, 123, 125, LF] && after.next == Some("h")
            && !(Linked(ONE_EVENT, after.stream, None) && after.next == LastHash(ONE_EVENT, after.stream, None))
  {
    var s := Sink([123], None, ck);
    EmittedBraces(rules, ck, w);
    OneEventIsAFormat();
    BraceIsAFragment();
    EmptyIsLinked(ONE_EVENT);
    hide Format.WritesObjects, Format.NothingGlues, Linked, LastHash, Finished, Fragment, Whole, Emitted, PutsLineFeed, Blank;
    GluedWithoutLineFeed(ONE_EVENT, rules, s, [49], w, None);
  }

  lemma EmittedBraces(rules: Rules, ck: Option<Ck>, w: Weather)
    requires w.write.Lands? && !PutsLineFeed(Sink([123], None, ck), w.newline)
    ensures ONE_EVENT.line([49], None) == Some(BRACES) && ONE_EVENT.hash([49]) == "h"
    ensures var after := Emitted(ONE_EVENT, rules, Sink([123], None, ck), Some([49]), w).0;
            after.stream == [123, 123, 125, LF] && after.next == Some("h")
  {
    hide Appended, PutsLineFeed;
    assert [123] + ([] + BRACES + [LF]) == [123, 123, 125, LF];
  }

  lemma BraceIsAFragment()
    ensures Finished([123]) == [] && Fragment([123]) == [123] && !Blank([123])
  {
    NoLineFeed([123]);
    ZeroLines([123]);
    var s: Bytes := [123];
    assert s[..0] == [] && s[0..] == s;
    assert !IsSpace(s[0]);
  }

  datatype ChainStep =
    | Emit(event: Option<Bytes>, w: Weather)
    | TickSidecar(now: int, disk: Disk)
    | Restart(side: Bytes, scanFails: bool, bad: set<nat>, now: int, disk: Disk)

  function After(format: Format, rules: Rules, s: Sink, step: ChainStep): Sink {
    match step
    case Emit(event, w) => Emitted(format, rules, s, event, w).0
    case TickSidecar(now, disk) =>
      if s.ck.None? then s else s.(ck := Some(WroteIfDue(rules, s.ck.value, now, disk)))
    case Restart(side, scanFails, bad, now, disk) =>
      var next := TailChain(format, s.stream);
      match Opens(rules, side, s.stream, next.None?, scanFails, bad, now, disk)
      case Opened(ck) => Sink(s.stream, next, Some(ck))
      case Refused(_) => Sink(s.stream, next, None)
  }

  /** A restart is clean when the stream ends in a finished event line that the window of
      the tail shows whole, and the sidecar can be attached. */
  predicate CleanRestart(format: Format, rules: Rules, s: Sink, step: ChainStep)
    requires step.Restart?
  {
    && IsWhole(s.stream) && s.stream != [] && format.ReadLine(LastLine(s.stream)).Some?
    && TailFits(s.stream)
    && Opens(rules, step.side, s.stream, false, step.scanFails, step.bad, step.now, step.disk).Opened?
  }

  predicate TailFits(stream: Bytes)
    requires IsWhole(stream) && stream != []
  {
    |stream| <= 1024 * 1024 || |LastLine(stream)| + 1 < 1024 * 1024
  }

  predicate Fair(format: Format, rules: Rules, s: Sink, step: ChainStep) {
    match step
    case Emit(event, w) => !w.newline.metaFails && !w.newline.readFails && !BreaksAtLineFeed(format, s, event, w)
    case TickSidecar(_, _) => true
    case Restart(_, _, _, _, _) => CleanRestart(format, rules, s, step)
  }

  /** A restart finds the hash the chain goes on from, if and only if the last line fits the
      window it reads. */
  lemma TailContinues(format: Format, stream: Bytes, start: Option<string>)
    requires IsWhole(stream) && stream != [] && format.ReadLine(LastLine(stream)).Some?
    ensures TailChain(format, stream) == LastHash(format, stream, start) <==> TailFits(stream)
  {
    hide Lines, Whole, LastLine, Trim;
    var before, line := Before(stream), LastLine(stream);
    var from := if |stream| > WINDOW then |stream| - WINDOW else 0;
    var buf := stream[from..];
    if from <= |before| {
      assert buf == before[from..] + line + [LF];
      EndOfWhole(before, from);
      LastWordedIs(before[from..], line, from > 0);
    } else {
      var j := from - |before|;
      assert buf == [] + line[j..] + [LF];
      Parts(line, j);
      LinesAppend(line[..j], line[j..]);
      LastWordedIs([], line[j..], true);
    }
  }

  lemma EndOfWhole(s: Bytes, k: nat)
    ensures IsWhole(s) && k <= |s| ==> IsWhole(s[k..])
  {
  }

  lemma LastWordedIs(front: Bytes, line: Bytes, cut: bool)
    requires IsWhole(front) && Lines(line) == 0
    ensures LastWorded(front + line + [LF], cut)
         == if Trim(line) != [] && (front != [] || !cut) then Some(Trim(line))
            else if front != [] then LastWorded(front[..|front| - 1], cut) else None
  {
    hide Lines, Trim;
    var buf := front + line + [LF];
    BeforeAppended(front, line);
    assert buf[..|buf| - 1] == front + line;
    WholeSlice(buf);
    NothingTrims();
    LinesAppend(front, line);
    assert (front + line)[|front|..] == line;
    assert (front + line)[..|front| - (if front == [] then 0 else 1)] == front[..|front| - (if front == [] then 0 else 1)];
  }

  lemma NothingTrims()
    ensures Trim([]) == []
  {
  }

  /** The window of the tail shows the fragment, and the line feed before it if it is cut. */
  predicate FragmentFits(stream: Bytes) { |stream| <= 1024 * 1024 || |Fragment(stream)| < 1024 * 1024 }

  /** What a restart finds after a torn tail that is not blank: that of the fragment if it is a
      whole event, and nothing otherwise, whatever events come before it. */
  lemma TailOfFragment(format: Format, stream: Bytes)
    requires Trim(Fragment(stream)) != []
    ensures TailChain(format, stream)
         == if !FragmentFits(stream) then None
            else match format.ReadLine(Fragment(stream))
                 case Some(link) => Some(format.hash(link.body))
                 case None => None
  {
    hide Lines, Trim;
    FinishedAndFragment(stream);
    var done, frag := Finished(stream), Fragment(stream);
    var from := if |stream| > WINDOW then |stream| - WINDOW else 0;
    if from <= |done| {
      assert stream[from..] == done[from..] + frag;
      EndOfWhole(done, from);
      FinishedOf(done[from..], frag);
    } else {
      assert stream[from..] == frag[from - |done|..];
      Parts(frag, from - |done|);
      LinesAppend(frag[..from - |done|], frag[from - |done|..]);
      ZeroLines(stream[from..]);
    }
  }

  /** So a restart after a torn tail goes on with the chain if and only if the tail is a whole
      event that only lacks its line feed and the window shows it, or there is no event at
      all; otherwise a fresh chain begins. */
  lemma RestartAfterTornTail(format: Format, stream: Bytes, start: Option<string>)
    requires Trim(Fragment(stream)) != [] && Linked(format, Finished(stream), start)
    ensures TailChain(format, stream) == LastHash(format, Ended(stream), start)
       <==> if format.ReadLine(Fragment(stream)).Some? then FragmentFits(stream)
            else LastHash(format, Finished(stream), start) == None
    ensures Linked(format, Ended(stream), start)
       <==> match format.ReadLine(Fragment(stream))
            case Some(link) => link.prev == LastHash(format, Finished(stream), start)
            case None => true
    ensures format.ReadLine(Fragment(stream)) == None ==> TailChain(format, stream) == None
  {
    hide Linked, LastHash, Finished, Fragment, Format.ReadLine, FragmentFits, TailChain, Lines;
    TailOfFragment(format, stream);
    FinishedAndFragment(stream);
    NothingTrims();
    OneMore(format, Finished(stream), Fragment(stream), start);
  }

  lemma OpenedAtLineEnd(
    rules: Rules, side: Bytes, stream: Bytes, unchained: bool, scanFails: bool, bad: set<nat>, now: int, disk: Disk)
    requires Opens(rules, side, stream, unchained, scanFails, bad, now, disk).Opened?
    ensures AtStreamLineEnd(rules, Opens(rules, side, stream, unchained, scanFails, bad, now, disk).ck, stream)
  {
    hide Lines, Whole, Rules.HeadOf, Rules.TailHash, Resumed, UnlikeOurs, Scan;
    ResumedIsExact(rules, side, stream, bad, now);
  }

  lemma StepKeepsOneChain(format: Format, rules: Rules, s: Sink, step: ChainStep, start: Option<string>)
    requires format.WritesObjects() && OneChain(format, rules, s, start) && Fair(format, rules, s, step)
    ensures OneChain(format, rules, After(format, rules, s, step), start)
  {
    hide Format.WritesObjects, AtStreamLineEnd, Linked, LastHash, Finished, Fragment, Lines, Whole, LastLine, Format.ReadLine,
         Emitted, WroteIfDue, Opens, TailChain, TailFits, BreaksAtLineFeed;
    match step
    case Emit(event, w) => EmitKeepsOneChain(format, rules, s, event, w, start);
    case TickSidecar(now, disk) => WritingLeavesTheLineEnd(rules, s.ck.value, now, disk, s.stream);
    case Restart(side, scanFails, bad, now, disk) =>
      WholeIsFinished(s.stream);
      TailContinues(format, s.stream, start);
      AfterAnEvent(format, s.stream, start);
      OpenedAtLineEnd(rules, side, s.stream, false, scanFails, bad, now, disk);
  }

  lemma AfterAnEvent(format: Format, s: Bytes, start: Option<string>)
    ensures IsWhole(s) && s != [] && format.ReadLine(LastLine(s)).Some? ==> LastHash(format, s, start).Some?
  {
  }

  /** What opening a file and attaching its sidecar starts from: an empty file, or one chain
      whose last event line the window of the tail shows whole. */
  ghost predicate CleanStart(format: Format, file: Bytes, start: Option<string>) {
    if file == [] then start == None
    else IsWhole(file) && Linked(format, file, start) && format.ReadLine(LastLine(file)).Some? && TailFits(file)
  }

  lemma OpenedIsOneChain(
    format: Format, rules: Rules, file: Bytes, start: Option<string>, side: Bytes, bad: set<nat>, now: int, disk: Disk)
    requires CleanStart(format, file, start)
    requires Opens(rules, side, file, TailChain(format, file).None?, false, bad, now, disk).Opened?
    ensures var ck := Opens(rules, side, file, TailChain(format, file).None?, false, bad, now, disk).ck;
            OneChain(format, rules, Sink(file, TailChain(format, file), Some(ck)), start)
  {
    hide AtStreamLineEnd, Linked, LastHash, Lines, LastLine, Format.ReadLine, Opens, TailFits, LastWorded;
    NoLines();
    WholeIsFinished(file);
    NothingReads(format);
    OpenedAtLineEnd(rules, side, file, TailChain(format, file).None?, false, bad, now, disk);
    if file == [] {
      EmptyIsLinked(format);
    } else {
      TailContinues(format, file, start);
    }
  }

  lemma EmptyIsLinked(format: Format)
    ensures IsWhole([]) && Linked(format, [], None) && LastHash(format, [], None) == None
    ensures TailChain(format, []) == None
  {
  }

  ghost predicate FairRun(format: Format, rules: Rules, s: Sink, steps: seq<ChainStep>)
    decreases |steps|
  {
    steps == [] || (Fair(format, rules, s, steps[0]) && FairRun(format, rules, After(format, rules, s, steps[0]), steps[1..]))
  }

  function AfterAll(format: Format, rules: Rules, s: Sink, steps: seq<ChainStep>): Sink
    decreases |steps|
  {
    if steps == [] then s else AfterAll(format, rules, After(format, rules, s, steps[0]), steps[1..])
  }

  /** Over any run of emits, failed writes, ticks and clean restarts there is one chain:
      every event line of the file carries the hash of the event line before it, and the
      next one will. */
  lemma {:induction false} NeverAFork(format: Format, rules: Rules, s: Sink, steps: seq<ChainStep>, start: Option<string>)
    requires format.WritesObjects() && OneChain(format, rules, s, start) && FairRun(format, rules, s, steps)
    ensures OneChain(format, rules, AfterAll(format, rules, s, steps), start)
    decreases |steps|
  {
    if steps != [] {
      hide Format.WritesObjects, OneChain, Fair, After;
      StepKeepsOneChain(format, rules, s, steps[0], start);
      NeverAFork(format, rules, After(format, rules, s, steps[0]), steps[1..], start);
    }
  }

  /** The write that stops exactly before its line feed: the next emit ends the line for it,
      and the file holds two events that carry the same hash. */
  lemma BreakAtLineFeedForks(
    format: Format, rules: Rules, s: Sink, one: Bytes, two: Bytes, w1: Weather, w2: Weather, start: Option<string>)
    requires format.WritesObjects() && OneChain(format, rules, s, start)
    requires !w1.newline.metaFails && !w1.newline.readFails && !w2.newline.metaFails && !w2.newline.readFails
    requires BreaksAtLineFeed(format, s, Some(one), w1)
    requires format.line(two, s.next).Some? && w2.write.Lands?
    ensures var s1 := Emitted(format, rules, s, Some(one), w1).0;
            var s2 := Emitted(format, rules, s1, Some(two), w2).0;
            && IsWhole(s2.stream)
            && s2.stream == Ended(s.stream) + format.line(one, s.next).value + [LF] + format.line(two, s.next).value + [LF]
            && (Linked(format, s2.stream, start) <==> s.next == Some(format.hash(one)))
  {
    hide Format.WritesObjects, Linked, LastHash, Lines, Format.ReadLine, EndsTorn, Finished, Fragment, Ended, Appended, Exact;
    var line1, line2 := format.line(one, s.next).value, format.line(two, s.next).value;
    LineIsObject(format, one, s.next);
    LineIsObject(format, two, s.next);
    EndedIsLinked(format, s.stream, start);
    var done := Ended(s.stream);
    OneMore(format, done, line1, start);
    OneMore(format, done + line1 + [LF], line2, start);
    BrokeAtLineFeed(format, rules, s, one, w1);
    var s1 := Emitted(format, rules, s, Some(one), w1).0;
    FinishedOf(done, line1);
    EndedIs(s1.stream);
    StreamAfter(s1, rules, line2, w2.newline, w2.write);
  }

  lemma BrokeAtLineFeed(format: Format, rules: Rules, s: Sink, one: Bytes, w: Weather)
    requires format.WritesObjects()
    requires s.ck.Some? && AtStreamLineEnd(rules, s.ck.value, s.stream) && !w.newline.metaFails && !w.newline.readFails
    requires BreaksAtLineFeed(format, s, Some(one), w)
    ensures var s1 := Emitted(format, rules, s, Some(one), w).0;
            && s1 == s.(stream := Ended(s.stream) + format.line(one, s.next).value)
            && AtStreamLineEnd(rules, s1.ck.value, s1.stream)
            && format.line(one, s.next).value != []
  {
    hide Format.WritesObjects, Lines, Format.ReadLine, EndsTorn, Fragment, Ended, Exact;
    var line := format.line(one, s.next).value;
    LineIsObject(format, one, s.next);
    NothingReads(format);
    EndedIs(s.stream);
    NewlineWhenTorn(rules, s.ck.value, s.stream, w.newline);
    var text := Text(s, line, w.newline);
    assert Landed(text, w.write) == text[..|text| - 1];
    assert s.stream + text[..|text| - 1] == Ended(s.stream) + line;
  }

  // ------------------------------------- the records of the exporter's own sidecar

  /** A reader of the stream takes the hash of every line the exporter writes. */
  ghost predicate SameHashes(format: Format, rules: Rules) {
    forall body, prev :: format.line(body, prev).Some? ==>
      rules.event(format.line(body, prev).value) == Some(format.hash(body))
  }

  /** What an emit hands to its sidecar is what a reader finds at its line, up to the cap. */
  lemma EmitMeetsOwnHead(format: Format, rules: Rules, s: Sink, body: Bytes, newline: Look)
    requires format.WritesObjects() && SameHashes(format, rules) && format.line(body, s.next).Some?
    requires |format.line(body, s.next).value| <= LINE_CAP
    ensures OwnHeadIsRead(rules, Text(s, format.line(body, s.next).value, newline), Some(format.hash(body)))
  {
    hide Format.WritesObjects, Lines, Whole, LastLine, EndsTorn;
    var line := format.line(body, s.next).value;
    LineIsObject(format, body, s.next);
    NoLines();
    LineFeedIsWhole();
    BeforeAppended([], line);
    BeforeAppended([LF], line);
    assert [] + line == line;
  }

  lemma LineFeedIsWhole()
    ensures IsWhole([LF])
  {
  }

  /** The sidecar's state and chain are kept, with every content its stream has had and every
      record handed over. */
  ghost predicate Recorded(rules: Rules, s: Sink, past: seq<Bytes>, notes: seq<Note>) {
    && past != [] && past[|past| - 1] == s.stream && Rising(past)
    && s.ck.Some? && Kept(rules, World(past, Up(s.ck.value), notes))
  }

  /** What the sidecar relies on: lines within the cap, no torn record left uncut before the
      next write, and a restart that opens the sidecar as it was left. */
  predicate Recordable(format: Format, rules: Rules, s: Sink, step: ChainStep) {
    match step
    case Emit(event, w) =>
      && (s.ck.Some? ==> Clean(s.ck.value))
      && (event.Some? && format.line(event.value, s.next).Some? ==> |format.line(event.value, s.next).value| <= LINE_CAP)
    case TickSidecar(_, _) => s.ck.Some? ==> Clean(s.ck.value)
    case Restart(side, scanFails, bad, now, disk) =>
      && s.ck.Some? && side == s.ck.value.sidecar
      && Opens(rules, side, s.stream, TailChain(format, s.stream).None?, scanFails, bad, now, disk).Opened?
  }

  lemma StepIsAllowed(rules: Rules, w: World, step: Step)
    requires rules.EncodesLines() && Kept(rules, w) && Rising(w.past) && Appends(rules, w, step)
    ensures Kept(rules, Next(rules, w, step)) && Rising(Next(rules, w, step).past)
  {
    hide Kept, Rising, Appends, Next, Rules.EncodesLines;
    AppendsIsAllowed(rules, w, step);
    StepKeeps(rules, w, step);
  }

  lemma OwnTextLands(s: Bytes, text: Bytes)
    ensures exists before, after :: s + text == s + before + text + after
  {
    assert s + text == s + [] + text + [];
  }

  lemma EmitKeepsRecords(
    format: Format, rules: Rules, s: Sink, event: Option<Bytes>, w: Weather, past: seq<Bytes>, notes: seq<Note>)
    returns (p: seq<Bytes>, n: seq<Note>)
    requires format.WritesObjects() && SameHashes(format, rules) && rules.EncodesLines()
    requires Recorded(rules, s, past, notes) && Recordable(format, rules, s, Emit(event, w))
    ensures Recorded(rules, Emitted(format, rules, s, event, w).0, p, n)
  {
    hide Format.WritesObjects, SameHashes, Rules.EncodesLines, Kept, Rising, Appended, Text, OwnHeadIsRead, Clean, Handed;
    p, n := past, notes;
    if event.Some? && format.line(event.value, s.next).Some? {
      var world, ck := World(past, Up(s.ck.value), notes), s.ck.value;
      var line := format.line(event.value, s.next).value;
      var text := Text(s, line, w.newline);
      var to := s.stream + Landed(text, w.write);
      if w.write.Breaks? {
        StepIsAllowed(rules, world, Turns(to));
        p, n := past + [to], CheckpointRuns.Next(rules, world, Turns(to)).notes;
      } else {
        var own := Own(to, text, Some(format.hash(event.value)), w.lenFails, w.look, w.now, w.disk);
        EmitMeetsOwnHead(format, rules, s, event.value, w.newline);
        OwnTextLands(s.stream, text);
        assert Appends(rules, world, own);
        StepIsAllowed(rules, world, own);
        p, n := past + [to], CheckpointRuns.Next(rules, world, own).notes;
      }
    }
  }

  lemma StepKeepsRecords(
    format: Format, rules: Rules, s: Sink, step: ChainStep, past: seq<Bytes>, notes: seq<Note>)
    returns (p: seq<Bytes>, n: seq<Note>)
    requires format.WritesObjects() && SameHashes(format, rules) && rules.EncodesLines()
    requires Recorded(rules, s, past, notes) && Recordable(format, rules, s, step)
    ensures Recorded(rules, After(format, rules, s, step), p, n)
  {
    hide Format.WritesObjects, SameHashes, Rules.EncodesLines, Kept, Rising, Emitted, WroteIfDue, Opens, TailChain, Clean,
         Handed;
    var world := World(past, Up(s.ck.value), notes);
    match step
    case Emit(event, w) => p, n := EmitKeepsRecords(format, rules, s, event, w, past, notes);
    case TickSidecar(now, disk) =>
      StepIsAllowed(rules, world, Tick(now, disk));
      p, n := past, CheckpointRuns.Next(rules, world, Tick(now, disk)).notes;
    case Restart(side, scanFails, bad, now, disk) =>
      StepIsAllowed(rules, world, Dies);
      var down := CheckpointRuns.Next(rules, world, Dies);
      var reopens := Reopens(TailChain(format, s.stream).None?, scanFails, bad, now, disk);
      StepIsAllowed(rules, down, reopens);
      p, n := past, CheckpointRuns.Next(rules, down, reopens).notes;
  }

  ghost predicate RecordableRun(format: Format, rules: Rules, s: Sink, steps: seq<ChainStep>)
    decreases |steps|
  {
    steps == []
    || (Recordable(format, rules, s, steps[0]) && RecordableRun(format, rules, After(format, rules, s, steps[0]), steps[1..]))
  }

  lemma {:induction false} RunKeepsRecords(
    format: Format, rules: Rules, s: Sink, steps: seq<ChainStep>, past: seq<Bytes>, notes: seq<Note>)
    returns (p: seq<Bytes>, n: seq<Note>)
    requires format.WritesObjects() && SameHashes(format, rules) && rules.EncodesLines()
    requires Recorded(rules, s, past, notes) && RecordableRun(format, rules, s, steps)
    ensures Recorded(rules, AfterAll(format, rules, s, steps), p, n)
    decreases |steps|
  {
    hide Format.WritesObjects, SameHashes, Rules.EncodesLines, Recorded, Recordable, After;
    p, n := past, notes;
    if steps != [] {
      p, n := StepKeepsRecords(format, rules, s, steps[0], past, notes);
      p, n := RunKeepsRecords(format, rules, After(format, rules, s, steps[0]), steps[1..], p, n);
    }
  }

  /** The exporter and its sidecar together: from any file and an empty sidecar, over any run
      of emits, failed writes, ticks and restarts, every record in the sidecar carries the
      hash of the one before it and covers the first lines of the file as it stands at the
      end. */
  lemma RecordsOfEmitsStayTrue(
    format: Format, rules: Rules, file: Bytes, unchained: bool, bad: set<nat>, now: int, disk: Disk,
    next: Option<string>, steps: seq<ChainStep>)
    requires format.WritesObjects() && SameHashes(format, rules) && rules.EncodesLines()
    requires Opens(rules, [], file, unchained, false, bad, now, disk).Opened?
    requires var s := Sink(file, next, Some(Opens(rules, [], file, unchained, false, bad, now, disk).ck));
             RecordableRun(format, rules, s, steps)
    ensures var s := Sink(file, next, Some(Opens(rules, [], file, unchained, false, bad, now, disk).ck));
            var end := AfterAll(format, rules, s, steps);
            && end.ck.Some?
            && var side := end.ck.value.sidecar;
               Chained(rules, side[..Whole(side)], AllTrueOf(rules, end.stream)) && ReadsAsChain(rules, side[..Whole(side)])
  {
    hide Format.WritesObjects, SameHashes, Rules.EncodesLines, RecordableRun, Kept, Rising, AfterAll, Opens, Chained,
         ReadsAsChain, Whole, AllTrueOf, Told, Handed;
    var s := Sink(file, next, Some(Opens(rules, [], file, unchained, false, bad, now, disk).ck));
    var empty, opens := World([file], Down([]), []), Reopens(unchained, false, bad, now, disk);
    EmptyIsKept(rules, file);
    StepIsAllowed(rules, empty, opens);
    var past, notes := RunKeepsRecords(format, rules, s, steps, [file], CheckpointRuns.Next(rules, empty, opens).notes);
    var end := AfterAll(format, rules, s, steps);
    var w := World(past, Up(end.ck.value), notes);
    KeptIsChained(rules, w);
    ToldIsTrue(rules, w);
    ChainedLater(rules, end.ck.value.sidecar[..Whole(end.ck.value.sidecar)], Told(notes), AllTrueOf(rules, end.stream));
  }

  lemma EmptyIsKept(rules: Rules, file: Bytes)
    ensures Kept(rules, World([file], Down([]), [])) && Rising([file])
  {
    NothingIsKept(rules, file);
  }

  // ---------------------------------------------------------- what an emit has to do

  /** What is reported of an emit, and what that says of the file: an event is written if and
      only if its line and a line feed are what the file gained, at most behind one more line
      feed; then the next event will carry its hash, and otherwise that of the one before. */
  ghost predicate IsReported(format: Format, s: Sink, event: Option<Bytes>, t: Sink, outcome: Outcome) {
    if event.None? then outcome.SkippedNoAgentId? && t == s
    else
      match format.line(event.value, s.next)
      case None => outcome.WriteError? && t == s
      case Some(line) =>
        && (outcome.Written? || outcome.WriteError?)
        && (outcome.Written? <==> t.stream == s.stream + line + [10] || t.stream == s.stream + [10] + line + [10])
        && (outcome.Written? ==> t.next == Some(format.hash(event.value)))
        && (outcome.WriteError? ==> t.next == s.next && t.ck == s.ck && s.stream <= t.stream)
  }

  lemma EmitIsReported(format: Format, rules: Rules, s: Sink, event: Option<Bytes>, w: Weather, t: Sink, outcome: Outcome)
    requires format.WritesObjects() && (t, outcome) == Emitted(format, rules, s, event, w)
    ensures IsReported(format, s, event, t, outcome)
    ensures outcome.Written? <==> event.Some? && format.line(event.value, s.next).Some? && w.write.Lands?
  {
    hide Appended, EndsTorn, PutsLineFeed, Format.WritesObjects;
    if event.Some? && format.line(event.value, s.next).Some? {
      var line := format.line(event.value, s.next).value;
      LineIsObject(format, event.value, s.next);
      assert s.stream <= s.stream + Landed(Text(s, line, w.newline), w.write);
      if w.write.Lands? {
        TextLands(s, line, w.newline);
      } else {
        NothingReads(format);
        BrokenIsShort(s.stream, line, PutsLineFeed(s, w.newline), Landed(Text(s, line, w.newline), w.write));
      }
    }
  }

  lemma TextLands(s: Sink, line: Bytes, newline: Look)
    ensures s.stream + Text(s, line, newline) == s.stream + line + [10]
         || s.stream + Text(s, line, newline) == s.stream + [10] + line + [10]
  {
    hide PutsLineFeed;
    assert s.stream + ([] + line + [10]) == s.stream + line + [10];
    assert s.stream + ([10] + line + [10]) == s.stream + [10] + line + [10];
  }

  /** Less than the whole text is not the line and its line feed, with or without one before. */
  lemma BrokenIsShort(stream: Bytes, line: Bytes, leads: bool, landed: Bytes)
    requires Lines(line) == 0 && line != []
    requires landed < (if leads then [10] else []) + line + [10]
    ensures stream + landed != stream + line + [10] && stream + landed != stream + [10] + line + [10]
  {
    hide Lines;
    NoLineFeed(line);
    assert line[0] in line;
    assert (line + [10])[0] == line[0] != 10;
    assert leads && landed != [] ==> landed[0] == 10;
    assert |landed| < |line| + if leads then 2 else 1;
    SameRest(stream, landed, line + [10]);
    Glue(stream, line, [10]);
    assert |stream + [10] + line + [10]| == |stream| + |line| + 2;
  }

  lemma SameRest(stream: Bytes, a: Bytes, b: Bytes)
    ensures stream + a == stream + b ==> a == b
  {
    assert (stream + a)[|stream|..] == a && (stream + b)[|stream|..] == b;
  }

  /** Nothing fails on the way of an emit, and others leave the file alone. */
  predicate Fine(w: Weather) {
    && w.write.Lands? && !w.newline.metaFails && !w.newline.readFails && !w.lenFails
    && !w.look.metaFails && !w.look.readFails && !w.look.headFails && w.disk.Writes?
  }

  /** The sidecar has been told of an event: the whole file is hashed and counted, with the
      event as head. A record of just that follows when one is due, after 64 lines or ten
      seconds; otherwise its lines are counted to those that wait. */
  ghost predicate SidecarIsTold(format: Format, rules: Rules, s: Sink, body: Bytes, now: int, t: Sink) {
    s.ck.Some? && t.ck.Some?
    && var ck, next, lines := s.ck.value, t.ck.value, Lines(t.stream);
       var waiting := ck.pending + lines - ck.count;
       var f := Fields(PeriodicKind, lines, format.hash(body), rules.hash(t.stream), now, ck.prev);
       && IsWhole(t.stream) && next.sum == t.stream && next.off == |t.stream| && next.count == lines
       && next.head == Some(format.hash(body)) && waiting > ck.pending
       && (if waiting < 64 && now - ck.lastAt < 10_000 then SameSidecar(ck, next) && next.pending == waiting
           else if Fits(rules, f) then
             && next.sidecar == ck.sidecar + rules.encode(f).value + [10]
             && next.prev == rules.hash(rules.encode(f).value) && next.lastAt == now && next.pending == 0
           else SameSidecar(ck, next) && next.pending == waiting)
  }

  lemma EmitTellsTheSidecar(format: Format, rules: Rules, s: Sink, body: Bytes, w: Weather, t: Sink)
    requires format.WritesObjects() && SameHashes(format, rules) && Fine(w)
    requires s.ck.Some? && AtStreamLineEnd(rules, s.ck.value, s.stream)
    requires format.line(body, s.next).Some? && |format.line(body, s.next).value| <= LINE_CAP
    requires t == Emitted(format, rules, s, Some(body), w).0
    ensures SidecarIsTold(format, rules, s, body, w.now, t)
  {
    hide Format.WritesObjects, SameHashes, AtStreamLineEnd, Lines, Whole, Appended, Rules.HeadOf, Text,
         IsCounted, IsWrittenWhenDue, SidecarIsTold, CanLook;
    var ck, text, head := s.ck.value, Text(s, format.line(body, s.next).value, w.newline), Some(format.hash(body));
    OffsetAtLineEnd(rules, ck, s.stream, text);
    FineLooks(w, ck, s.stream + text);
    var seen := AppendIsTold(rules, ck, s.stream + text, text, head, w.look, w.now, w.disk, t.ck.value);
    EventIsLast(format, rules, s, body, w.newline);
    AllIsCounted(rules, ck, s.stream, text, head, w, seen);
    DueIsTold(format, rules, s, body, w, seen, t);
  }

  /** Both, of any emit. */
  lemma EmitDoes(format: Format, rules: Rules, s: Sink, event: Option<Bytes>, w: Weather)
    ensures var (t, outcome) := Emitted(format, rules, s, event, w);
            format.WritesObjects() ==>
              && IsReported(format, s, event, t, outcome)
              && (SameHashes(format, rules) && Fine(w) && outcome.Written? && s.ck.Some?
                  && AtStreamLineEnd(rules, s.ck.value, s.stream) && |format.line(event.value, s.next).value| <= LINE_CAP ==>
                    SidecarIsTold(format, rules, s, event.value, w.now, t))
  {
    hide Emitted, IsReported, SidecarIsTold, SameHashes, AtStreamLineEnd, Format.WritesObjects;
    if format.WritesObjects() {
      var (t, outcome) := Emitted(format, rules, s, event, w);
      EmitIsReported(format, rules, s, event, w, t, outcome);
      if SameHashes(format, rules) && Fine(w) && outcome.Written? && s.ck.Some?
         && AtStreamLineEnd(rules, s.ck.value, s.stream) && |format.line(event.value, s.next).value| <= LINE_CAP {
        EmitTellsTheSidecar(format, rules, s, event.value, w, t);
      }
    }
  }

  lemma OffsetAtLineEnd(rules: Rules, ck: Ck, stream: Bytes, text: Bytes)
    requires AtStreamLineEnd(rules, ck, stream)
    ensures AtLineEnds(rules, ck) && ck.sum <= stream + text && ck.off == |ck.sum| && Unrewritten(ck, stream + text)
    ensures |stream + text| == ck.off + |text| ==> (stream + text)[ck.off..] == text
    ensures EndsWithLf(text) ==> Lines(stream + text) > Lines(ck.sum) && IsWhole(stream + text)
    ensures ck.count == Lines(ck.sum)
  {
    hide Rules.HeadOf;
    assert stream == ck.sum + stream[|ck.sum|..];
    LinesAppend(ck.sum, stream[|ck.sum|..]);
    LinesAppend(stream, text);
  }

  lemma FineLooks(w: Weather, ck: Ck, stream: Bytes)
    ensures Fine(w) ==> CanLook(ck, stream, w.look)
  {
  }

  /** The last line of the file is the event's, and a reader takes its hash. */
  lemma EventIsLast(format: Format, rules: Rules, s: Sink, body: Bytes, newline: Look)
    requires format.WritesObjects() && SameHashes(format, rules) && !newline.metaFails && !newline.readFails
    requires s.ck.Some? && AtStreamLineEnd(rules, s.ck.value, s.stream)
    requires format.line(body, s.next).Some? && |format.line(body, s.next).value| <= LINE_CAP
    ensures var to := s.stream + Text(s, format.line(body, s.next).value, newline);
            IsWhole(to) && rules.HeadOf(to) == Some(format.hash(body))
  {
    hide Format.WritesObjects, AtStreamLineEnd, Lines, Whole, LastLine, PutsLineFeed, Ended;
    var line := format.line(body, s.next).value;
    LineIsObject(format, body, s.next);
    StreamAfter(s, rules, line, newline, Lands);
    BeforeAppended(Ended(s.stream), line);
  }

  lemma AllIsCounted(
    rules: Rules, ck: Ck, stream: Bytes, text: Bytes, head: Option<string>, w: Weather, seen: Ck)
    requires IsCounted(rules, ck, stream + text, text, head, w.look, seen) && Fine(w)
    requires AtStreamLineEnd(rules, ck, stream) && EndsWithLf(text)
    requires IsWhole(stream + text) && rules.HeadOf(stream + text) == head
    ensures var to := stream + text;
            && seen.sum == to && seen.off == |to| && seen.count == Lines(to) && seen.head == head
            && seen.pending == ck.pending + Lines(to) - ck.count && Lines(to) > ck.count && SameSidecar(ck, seen)
  {
    hide Rules.HeadOf, Lines;
    OffsetAtLineEnd(rules, ck, stream, text);
    assert (stream + text)[..|stream + text|] == stream + text;
  }

  lemma DueIsTold(format: Format, rules: Rules, s: Sink, body: Bytes, w: Weather, seen: Ck, t: Sink)
    requires s.ck.Some? && t.ck.Some? && IsWrittenWhenDue(rules, seen, w.now, w.disk, t.ck.value) && w.disk.Writes?
    requires IsWhole(t.stream) && seen.sum == t.stream && seen.off == |t.stream| && seen.count == Lines(t.stream)
    requires seen.head == Some(format.hash(body)) && SameSidecar(s.ck.value, seen)
    requires seen.pending == s.ck.value.pending + Lines(t.stream) - s.ck.value.count && Lines(t.stream) > s.ck.value.count
    ensures SidecarIsTold(format, rules, s, body, w.now, t)
  {
    hide Lines, Whole;
    var f := Says(rules, seen, PeriodicKind, seen.count, seen.head.value, seen.sum, w.now);
    if Fits(rules, f) {
      assert s.ck.value.sidecar + (rules.encode(f).value + [10]) == s.ck.value.sidecar + rules.encode(f).value + [10];
    }
  }

  /** A run of events, each told of as it should be, and each record small enough. */
  ghost predicate ToldRun(
    format: Format, rules: Rules, states: seq<Sink>, bodies: seq<Bytes>, times: seq<int>)
  {
    && |states| == |bodies| + 1 && |times| == |bodies|
    && (forall k :: 0 <= k < |states| ==> states[k].ck.Some?)
    && forall k :: 0 <= k < |bodies| ==> SidecarIsToldAt(format, rules, states[k], bodies[k], times[k], states[k + 1])
  }

  ghost predicate SidecarIsToldAt(format: Format, rules: Rules, s: Sink, body: Bytes, now: int, t: Sink) {
    SidecarIsTold(format, rules, s, body, now, t)
    && Fits(rules, Fields(PeriodicKind, Lines(t.stream), format.hash(body), rules.hash(t.stream), now, s.ck.value.prev))
  }

  /** Over any run of events a healthy sidecar never falls 64 lines behind: wherever it has not
      grown, less than 64 lines have been added to the file. */
  lemma {:induction false} NeverFarBehind(
    format: Format, rules: Rules, states: seq<Sink>, bodies: seq<Bytes>, times: seq<int>, i: nat, j: nat)
    requires ToldRun(format, rules, states, bodies, times) && i < j < |states|
    requires |states[i].ck.value.sidecar| == |states[j].ck.value.sidecar|
    requires states[i].ck.value.count <= Lines(states[i].stream)
    ensures Lines(states[j].stream) < Lines(states[i].stream) + 64
    ensures states[j].ck.value.pending == states[i].ck.value.pending + Lines(states[j].stream) - states[i].ck.value.count
    ensures states[j].ck.value.pending < 64
    decreases j
  {
    hide SidecarIsTold, Lines, Whole;
    var s, t := states[j - 1], states[j];
    assert SidecarIsToldAt(format, rules, s, bodies[j - 1], times[j - 1], t);
    SidecarGrows(format, rules, states, bodies, times, i, j - 1);
    OneMoreTold(format, rules, s, bodies[j - 1], times[j - 1], t);
    if i < j - 1 {
      OneMoreTold(format, rules, states[j - 2], bodies[j - 2], times[j - 2], s) by {
        assert SidecarIsToldAt(format, rules, states[j - 2], bodies[j - 2], times[j - 2], states[j - 1]);
      }
      NeverFarBehind(format, rules, states, bodies, times, i, j - 1);
    }
  }

  /** The run's states are those that emits go through, none of which fails. */
  ghost predicate FineRun(format: Format, rules: Rules, states: seq<Sink>, bodies: seq<Bytes>, w: seq<Weather>) {
    && |states| == |bodies| + 1 && |w| == |bodies|
    && states[0].ck.Some? && AtStreamLineEnd(rules, states[0].ck.value, states[0].stream)
    && forall k :: 0 <= k < |bodies| ==> FineEmit(format, rules, states[k], bodies[k], w[k], states[k + 1])
  }

  ghost predicate FineEmit(format: Format, rules: Rules, s: Sink, body: Bytes, w: Weather, t: Sink) {
    && Fine(w) && t == Emitted(format, rules, s, Some(body), w).0
    && format.line(body, s.next).Some? && |format.line(body, s.next).value| <= LINE_CAP
  }

  /** Each of its emits is told of. */
  lemma {:induction false} FineRunIsTold(
    format: Format, rules: Rules, states: seq<Sink>, bodies: seq<Bytes>, w: seq<Weather>, k: nat)
    requires format.WritesObjects() && SameHashes(format, rules) && FineRun(format, rules, states, bodies, w) && k < |bodies|
    ensures SidecarIsTold(format, rules, states[k], bodies[k], w[k].now, states[k + 1])
    decreases k
  {
    hide Format.WritesObjects, SameHashes, Emitted, Fine, SidecarIsTold, AtStreamLineEnd;
    assert FineEmit(format, rules, states[k], bodies[k], w[k], states[k + 1]);
    if k > 0 {
      FineRunIsTold(format, rules, states, bodies, w, k - 1);
      ToldAtLineEnd(format, rules, states[k - 1], bodies[k - 1], w[k - 1].now, states[k]);
    }
    EmitTellsTheSidecar(format, rules, states[k], bodies[k], w[k], states[k + 1]);
  }

  lemma ToldAtLineEnd(format: Format, rules: Rules, s: Sink, body: Bytes, now: int, t: Sink)
    requires SidecarIsTold(format, rules, s, body, now, t)
    ensures t.ck.Some? && AtStreamLineEnd(rules, t.ck.value, t.stream)
  {
    hide Lines, Whole;
  }

  /** The sidecar only grows, and where it does not, what waits does. */
  lemma OneMoreTold(format: Format, rules: Rules, s: Sink, body: Bytes, now: int, t: Sink)
    requires SidecarIsToldAt(format, rules, s, body, now, t)
    ensures t.ck.Some? && s.ck.Some? && t.ck.value.count == Lines(t.stream)
    ensures |t.ck.value.sidecar| >= |s.ck.value.sidecar|
    ensures |t.ck.value.sidecar| == |s.ck.value.sidecar| ==>
              t.ck.value.pending == s.ck.value.pending + Lines(t.stream) - s.ck.value.count && t.ck.value.pending < 64
  {
    hide Lines, Whole;
  }

  lemma {:induction false} SidecarGrows(
    format: Format, rules: Rules, states: seq<Sink>, bodies: seq<Bytes>, times: seq<int>, i: nat, j: nat)
    requires ToldRun(format, rules, states, bodies, times) && i <= j < |states|
    ensures |states[i].ck.value.sidecar| <= |states[j].ck.value.sidecar|
    decreases j
  {
    if i < j {
      hide SidecarIsTold, Lines;
      SidecarGrows(format, rules, states, bodies, times, i, j - 1);
      assert SidecarIsToldAt(format, rules, states[j - 1], bodies[j - 1], times[j - 1], states[j]);
      OneMoreTold(format, rules, states[j - 1], bodies[j - 1], times[j - 1], states[j]);
    }
  }

  // ---------------------------------------------------------------- the exporter

  class ChainSink {
    const format: Format
    const rules: Rules
    var file: Bytes
    var next: Option<string>
    var resumedFrom: Option<string>
    var checkpoints: Checkpointer?

    ghost predicate Valid()
      reads this, checkpoints
    {
      checkpoints != null ==> checkpoints.rules == rules
    }

    ghost function State(): Sink
      reads this, checkpoints
    {
      Sink(file, next, if checkpoints == null then None else Some(checkpoints.State()))
    }

    constructor Open(format: Format, rules: Rules, file: Bytes, tailFails: bool)
      ensures this.format == format && this.rules == rules && Valid()
      ensures State() == Sink(file, if tailFails then None else TailChain(format, file), None)
      ensures resumedFrom == next
    {
      var h := TailChainHash(format, file, tailFails);
      this.format, this.rules, this.file := format, rules, file;
      next, resumedFrom, checkpoints := h, h, null;
    }

    /** `event` is nothing when no agent id was available to build it with. */
    method Emit(event: Option<Bytes>, w: Weather) returns (outcome: Outcome)
      requires Valid()
      modifies this, checkpoints
      ensures Valid() && checkpoints == old(checkpoints) && resumedFrom == old(resumedFrom)
      ensures (State(), outcome) == Emitted(format, rules, old(State()), event, w)
      ensures format.WritesObjects() ==> IsReported(format, old(State()), event, State(), outcome)
      // With everything fine, the sidecar is told.
      ensures format.WritesObjects() && SameHashes(format, rules) && Fine(w) && outcome.Written?
              && old(State()).ck.Some? && AtStreamLineEnd(rules, old(State()).ck.value, old(State()).stream)
              && |format.line(event.value, old(State()).next).value| <= LINE_CAP ==>
                SidecarIsTold(format, rules, old(State()), event.value, w.now, State())
    {
      hide Appended, EndsTorn, IsReported, SidecarIsTold, SameHashes, AtStreamLineEnd, Format.WritesObjects;
      EmitDoes(format, rules, State(), event, w);
      if event.None? {
        return SkippedNoAgentId;
      }
      var line := format.line(event.value, next);
      if line.None? {
        return WriteError;
      }
      var text := line.value + [LF];
      if checkpoints != null {
        var torn := checkpoints.NeedsNewline(file, w.newline);
        if torn {
          text := [LF] + line.value + [LF];
        }
      }
      assert text == Text(old(State()), line.value, w.newline) by {
        NothingBefore(line.value);
      }
      file := file + Landed(text, w.write);
      if w.write.Breaks? {
        return WriteError;
      }
      next := Some(format.hash(event.value));
      if checkpoints != null {
        checkpoints.AfterAppend(file, w.lenFails, text, next, w.look, w.now, w.disk);
      }
      outcome := Written;
    }

    /** A resume record is asked for exactly when the next line will start a fresh chain. */
    method AttachCheckpoints(side: Bytes, scanFails: bool, bad: set<nat>, now: int, disk: Disk)
      returns (ok: bool, left: Bytes)
      requires Valid()
      modifies this
      ensures Valid() && file == old(file) && next == old(next) && resumedFrom == old(resumedFrom)
      ensures old(checkpoints) != null ==> !ok && checkpoints == old(checkpoints) && left == side
      ensures old(checkpoints) == null ==>
                match Opens(rules, side, old(file), old(next).None?, scanFails, bad, now, disk)
                case Opened(ck) => ok && State() == Sink(old(file), old(next), Some(ck))
                case Refused(kept) => !ok && checkpoints == null && left == kept
      ensures old(checkpoints) == null ==>
                IsOpening(rules, side, file, next.None?, scanFails, bad, now, disk,
                  if ok then Opened(checkpoints.State()) else Refused(left))
    {
      hide Opens, IsOpening;
      OpeningNamesTheLastEvent(rules, side, file, next.None?, scanFails, bad, now, disk,
        Opens(rules, side, file, next.None?, scanFails, bad, now, disk));
      if checkpoints != null {
        return false, side;
      }
      var ck, kept := Checkpointer.Open(rules, side, file, next.None?, scanFails, bad, now, disk);
      if ck == null {
        return false, kept;
      }
      checkpoints := ck;
      ok, left := true, kept;
    }

    method CheckpointTick(now: int, disk: Disk)
      requires Valid()
      modifies this, checkpoints
      ensures Valid() && checkpoints == old(checkpoints) && resumedFrom == old(resumedFrom)
      ensures State() == After(format, rules, old(State()), TickSidecar(now, disk))
      ensures file == old(file) && next == old(next)
      ensures checkpoints != null ==>
                IsWrittenWhenDue(rules, old(checkpoints.State()), now, disk, checkpoints.State())
    {
      hide WroteIfDue, IsWrittenWhenDue;
      if checkpoints != null {
        DueIsWritten(rules, checkpoints.State(), now, disk, WroteIfDue(rules, checkpoints.State(), now, disk));
      }
      if checkpoints != null {
        checkpoints.Tick(now, disk);
      }
    }

    method CloseCheckpoints(look: Look, now: int, disk: Disk) returns (named: Option<nat>)
      requires Valid()
      modifies this, checkpoints
      ensures Valid() && checkpoints == old(checkpoints) && resumedFrom == old(resumedFrom)
      ensures file == old(file) && next == old(next)
      ensures old(checkpoints) == null ==> named == None
      ensures old(checkpoints) != null ==>
                (checkpoints.State(), named) == Closed(rules, old(checkpoints.State()), file, look, now, disk)
      ensures old(checkpoints) != null && Exact(rules, old(checkpoints.State())) && Unrewritten(old(checkpoints.State()), file) ==>
                IsClosing(rules, old(checkpoints.State()), file, look, now, disk, checkpoints.State(), named)
    {
      hide Closed, IsClosing, Exact, Unrewritten;
      if checkpoints == null {
        return None;
      }
      ghost var before := checkpoints.State();
      named := checkpoints.Close(file, look, now, disk);
      if Exact(rules, before) && Unrewritten(before, file) {
        CloseNamesTheStream(rules, before, file, look, now, disk, checkpoints.State(), named);
      }
    }
  }
}
