/** Byte streams made of lines, and the scanner of crates/core/src/checkpoint.rs (`scan`).

    A SHA-256 state is modelled by the bytes fed to it so far; the digest is taken of
    those bytes. */
module Stream {
  newtype byte = b: int | 0 <= b < 256
  type Bytes = seq<byte>

  const LF: byte := 10

  /** The number of line feeds. */
  function Lines(s: Bytes): nat {
    if s == [] then 0 else Lines(s[..|s| - 1]) + if s[|s| - 1] == LF then 1 else 0
  }

  /** The offset just after the last line feed, zero if there is none. */
  function Whole(s: Bytes): (k: nat)
    ensures k <= |s|
  {
    if s == [] then 0 else if s[|s| - 1] == LF then |s| else Whole(s[..|s| - 1])
  }

  /** Whole lines only. */
  predicate IsWhole(s: Bytes) { Whole(s) == |s| }

  /** The last line of whole lines, without its line feed. */
  function LastLine(s: Bytes): Bytes
    requires IsWhole(s) && s != []
  {
    s[Whole(s[..|s| - 1])..|s| - 1]
  }

  lemma {:induction false} LinesAppend(a: Bytes, b: Bytes)
    ensures Lines(a + b) == Lines(a) + Lines(b)
    ensures Whole(a + b) == if Lines(b) == 0 then Whole(a) else |a| + Whole(b)
    ensures Lines(b) == 0 <==> Whole(b) == 0
  {
    if b == [] {
      assert a + b == a;
    } else {
      assert (a + b)[..|a + b| - 1] == a + b[..|b| - 1];
      LinesAppend(a, b[..|b| - 1]);
    }
  }

  lemma {:induction false} NoLineFeed(s: Bytes)
    ensures LF !in s <==> Lines(s) == 0
  {
    if s != [] {
      assert s == s[..|s| - 1] + [s[|s| - 1]];
      NoLineFeed(s[..|s| - 1]);
    }
  }

  /** Cutting after the last line feed leaves whole lines, and as many of them. */
  lemma {:induction false} WholePart(s: Bytes)
    ensures IsWhole(s[..Whole(s)]) && Lines(s[..Whole(s)]) == Lines(s) && Lines(s[Whole(s)..]) == 0
  {
    if s != [] && s[|s| - 1] != LF {
      var front := s[..|s| - 1];
      WholePart(front);
      assert s[..Whole(s)] == front[..Whole(s)];
      assert s[Whole(s)..] == front[Whole(s)..] + [s[|s| - 1]];
      LinesAppend(front[Whole(s)..], [s[|s| - 1]]);
      assert [s[|s| - 1]][..0] == [];
    } else {
      assert s[..|s|] == s;
    }
  }

  // ------------------------------------------------------------------ the scan

  /** One line feed-terminated line: its number, its bounds, and the bytes hashed
      through its line feed. */
  datatype Mark = Mark(line: nat, start: nat, end: nat, sum: Bytes)

  datatype Scanned = Scanned(sum: Bytes, off: nat, count: nat, marks: seq<Mark>)

  /** A mark for every line of `data`, which starts at offset `start` after the bytes `sum`. */
  function Marks(data: Bytes, start: nat, sum: Bytes, count: nat): seq<Mark> {
    if data == [] then []
    else
      var front := data[..|data| - 1];
      var marks := Marks(front, start, sum, count);
      if data[|data| - 1] == LF
      then marks + [Mark(count + Lines(data), start + Whole(front), start + |data|, sum + data)]
      else marks
  }

  function Last<T>(s: seq<T>, keep: nat): seq<T> {
    if |s| <= keep then s else s[|s| - keep..]
  }

  /** What the scan of `file` from `start` is to find, whatever chunks it is read in. */
  function Scan(file: Bytes, start: nat, sum: Bytes, count: nat, keep: nat): Scanned
    requires start <= |file|
  {
    var data := file[start..];
    Scanned(sum + data[..Whole(data)], start + Whole(data), count + Lines(data),
            Last(Marks(data, start, sum, count), keep))
  }

  lemma {:induction false} MarksSkip(data: Bytes, more: Bytes, start: nat, sum: Bytes, count: nat)
    requires Lines(more) == 0
    ensures Marks(data + more, start, sum, count) == Marks(data, start, sum, count)
  {
    if more == [] {
      assert data + more == data;
    } else {
      var front := more[..|more| - 1];
      assert (data + more)[..|data + more| - 1] == data + front;
      MarksSkip(data, front, start, sum, count);
    }
  }

  /** What one more line adds to a scan: its bytes, its end, one to the count, its mark. */
  lemma OneMoreLine(data: Bytes, line: Bytes, start: nat, sum: Bytes, count: nat)
    requires Lines(line) == 0
    ensures var next := data + line + [LF];
            && Whole(next) == |next| && Lines(next) == Lines(data) + 1
            && Marks(next, start, sum, count) == Marks(data, start, sum, count)
                 + [Mark(count + Lines(next), start + Whole(data), start + |next|, sum + next)]
  {
    var next := data + line + [LF];
    assert next[..|next| - 1] == data + line;
    LinesAppend(data, line);
    MarksSkip(data, line, start, sum, count);
  }

  method FindLineFeed(p: Bytes) returns (i: nat)
    ensures i <= |p| && Lines(p[..i]) == 0
    ensures i < |p| ==> p[i] == LF
  {
    i := 0;
    while i < |p| && p[i] != LF
      invariant i <= |p| && Lines(p[..i]) == 0
    {
      assert p[..i + 1][..i] == p[..i];
      i := i + 1;
    }
  }

  /** The variables of the scanning loop. */
  datatype Cursor = Cursor(running: Bytes, atOff: Bytes, pos: nat, off: nat, count: nat, lineStart: nat, marks: seq<Mark>)

  /** What the loop holds once it has read the bytes `data`. */
  ghost predicate Holds(c: Cursor, data: Bytes, start: nat, sum: Bytes, count: nat, keep: nat) {
    && c.running == sum + data
    && c.pos == start + |data|
    && c.atOff == sum + data[..Whole(data)]
    && c.off == c.lineStart == start + Whole(data)
    && c.count == count + Lines(data)
    && c.marks == Last(Marks(data, start, sum, count), keep)
  }

  /** Past one more line feed: count it, mark its line, and drop the oldest mark if there
      are more than `keep`. */
  function AtLineEnd(c: Cursor, line: Bytes, keep: nat): Cursor {
    var end, run := c.pos + |line|, c.running + line;
    var more := c.marks + [Mark(c.count + 1, c.lineStart, end, run)];
    var marks := if keep == 0 then c.marks else if |more| > keep then more[1..] else more;
    Cursor(run, run, end, end, c.count + 1, end, marks)
  }

  /** The chunked scanner. Any sequence of short reads gives the one result. */
  method ScanChunks(file: Bytes, start: nat, sum: Bytes, count: nat, keep: nat) returns (r: Scanned)
    requires start <= |file|
    ensures r == Scan(file, start, sum, count, keep)
  {
    var c := Cursor(sum, sum, start, start, count, start, []);
    assert file[start..start] == [] && sum + [] == sum;
    while c.pos < |file|
      invariant start <= c.pos <= |file|
      invariant Holds(c, file[start..c.pos], start, sum, count, keep)
      decreases |file| - c.pos
    {
      // One read, of at most the buffer and at least a byte.
      var got: nat :| 0 < got <= |file| - c.pos && got <= 65536;
      assert file[start..c.pos] + file[c.pos..c.pos + got] == file[start..c.pos + got];
      ghost var data := file[start..c.pos];
      c := ScanChunk(c, file[c.pos..c.pos + got], data, start, sum, count, keep);
    }
    assert file[start..c.pos] == file[start..];
    r := Scanned(c.atOff, c.off, c.count, c.marks);
  }

  method ScanChunk(c0: Cursor, chunk: Bytes, ghost data0: Bytes, ghost start: nat, ghost sum: Bytes, ghost count: nat, keep: nat)
    returns (c: Cursor)
    requires Holds(c0, data0, start, sum, count, keep)
    ensures Holds(c, data0 + chunk, start, sum, count, keep)
  {
    c := c0;
    var p := chunk;
    ghost var data := data0;
    while p != []
      invariant data + p == data0 + chunk
      invariant Holds(c, data, start, sum, count, keep)
      decreases |p|
    {
      hide Holds, Lines, Whole, Marks, Last, AtLineEnd;
      var i := FindLineFeed(p);
      if i == |p| {
        assert p[..i] == p;
        Skipped(c, data, p, start, sum, count, keep);
        c := c.(running := c.running + p, pos := c.pos + |p|);
        data := data + p;
        p := [];
      } else {
        var line := p[..i];
        CutLine(data, p, i);
        Marked(c, data, line, start, sum, count, keep);
        c := AtLineEnd(c, p[..i + 1], keep);
        data := data + line + [LF];
        p := p[i + 1..];
      }
    }
    assert data + [] == data;
  }

  lemma Skipped(c: Cursor, data: Bytes, more: Bytes, start: nat, sum: Bytes, count: nat, keep: nat)
    requires Holds(c, data, start, sum, count, keep) && Lines(more) == 0
    ensures Holds(c.(running := c.running + more, pos := c.pos + |more|), data + more, start, sum, count, keep)
  {
    hide Lines, Whole, Marks, Last;
    LinesAppend(data, more);
    MarksSkip(data, more, start, sum, count);
    Glue(sum, data, more);
  }

  lemma Glue<T>(a: seq<T>, b: seq<T>, c: seq<T>)
    ensures (a + b) + c == a + (b + c)
  {
  }

  lemma CutLine(data: Bytes, p: Bytes, i: nat)
    requires i < |p| && p[i] == LF
    ensures p[..i + 1] == p[..i] + [LF]
    ensures data + p == (data + p[..i] + [LF]) + p[i + 1..]
  {
  }

  lemma Marked(c: Cursor, data: Bytes, line: Bytes, start: nat, sum: Bytes, count: nat, keep: nat)
    requires Holds(c, data, start, sum, count, keep) && Lines(line) == 0
    ensures Holds(AtLineEnd(c, line + [LF], keep), data + line + [LF], start, sum, count, keep)
  {
    hide Lines, Whole, Marks;
    OneMoreLine(data, line, start, sum, count);
    var next := data + line + [LF];
    var all := Marks(data, start, sum, count);
    assert (sum + data) + (line + [LF]) == sum + next;
    assert next[..|next|] == next;
  }

  // -------------------------------------------------- scanning on from a boundary

  /** Scanning the rest of a file from a boundary, with the hash saved there, ends where
      scanning the whole file from byte zero ends. */
  lemma ScanResumes(file: Bytes, cut: nat, keep: nat)
    requires cut <= |file|
    ensures var saved := Scan(file[..cut], 0, [], 0, keep);
            var on := Scan(file, saved.off, saved.sum, saved.count, 1);
            var all := Scan(file, 0, [], 0, 1);
            && on.sum == all.sum && on.off == all.off && on.count == all.count
            && (on.count > saved.count ==> on.marks == all.marks)
  {
    hide Lines, Whole, Marks;
    var front := file[..cut];
    assert front[0..] == front && file[0..] == file;
    var off := Whole(front);
    var head, rest := file[..off], file[off..];
    assert file == head + rest && front[..off] == head;
    WholePart(front);
    LinesAppend(head, rest);
    ZeroLines(head);
    ZeroLines(rest);
    assert [] + head == head;
    assert head + rest[..Whole(rest)] == file[..off + Whole(rest)];
    MarksOn(head, rest);
    if Lines(rest) > 0 { MarksNonEmpty(rest, off, head, Lines(head)); }
  }

  lemma {:induction false} ZeroLines(s: Bytes)
    ensures Lines(s) == 0 <==> Whole(s) == 0
  {
    LinesAppend([], s);
  }

  /** The mark of the line that the last byte of `data` ends, if it ends one. */
  function EndMark(data: Bytes, start: nat, sum: Bytes, count: nat): seq<Mark>
    requires data != []
  {
    if data[|data| - 1] != LF then []
    else [Mark(count + Lines(data), start + Whole(data[..|data| - 1]), start + |data|, sum + data)]
  }

  lemma EndMarkOn(head: Bytes, rest: Bytes)
    requires IsWhole(head) && rest != []
    ensures EndMark(head + rest, 0, [], 0) == EndMark(rest, |head|, head, Lines(head))
  {
    hide Lines, Whole;
    var front, all := rest[..|rest| - 1], head + rest;
    assert all[..|all| - 1] == head + front;
    assert all[|all| - 1] == rest[|rest| - 1];
    WholeOn(head, rest);
    WholeOn(head, front);
    NothingBefore(all);
  }

  lemma WholeOn(head: Bytes, more: Bytes)
    requires IsWhole(head)
    ensures Lines(head + more) == Lines(head) + Lines(more) && Whole(head + more) == |head| + Whole(more)
  {
    hide Lines, Whole;
    LinesAppend(head, more);
  }

  lemma NothingBefore<T>(s: seq<T>)
    ensures [] + s == s
  {
  }

  lemma {:induction false} MarksOn(head: Bytes, rest: Bytes)
    requires IsWhole(head)
    ensures Marks(head + rest, 0, [], 0) == Marks(head, 0, [], 0) + Marks(rest, |head|, head, Lines(head))
  {
    if rest == [] {
      assert head + rest == head;
    } else {
      hide Lines, Whole, Marks, EndMark;
      var front := rest[..|rest| - 1];
      assert (head + rest)[..|head + rest| - 1] == head + front;
      MarksOn(head, front);
      EndMarkOn(head, rest);
      Glue(Marks(head, 0, [], 0), Marks(front, |head|, head, Lines(head)), EndMark(rest, |head|, head, Lines(head)));
    }
  }

  lemma {:induction false} MarksNonEmpty(data: Bytes, start: nat, sum: Bytes, count: nat)
    ensures |Marks(data, start, sum, count)| == Lines(data)
    ensures forall i :: 0 <= i < |Marks(data, start, sum, count)| ==>
              IsLineOf(Marks(data, start, sum, count)[i], data, start, sum, count)
  {
    if data != [] {
      var front := data[..|data| - 1];
      MarksNonEmpty(front, start, sum, count);
      assert data == front + [data[|data| - 1]];
      forall i | 0 <= i < |Marks(front, start, sum, count)|
        ensures IsLineOf(Marks(front, start, sum, count)[i], data, start, sum, count)
      {
        var m := Marks(front, start, sum, count)[i];
        assert data[..m.end - start] == front[..m.end - start];
        assert data[..m.end - start - 1] == front[..m.end - start - 1];
      }
      assert data[..|data|] == data;
    }
  }

  /** A mark is true of the bytes it was taken from: it ends a line, numbers it, starts
      where the line does, and holds everything hashed through it. */
  ghost predicate IsLineOf(m: Mark, data: Bytes, start: nat, sum: Bytes, count: nat) {
    && start <= m.start < m.end <= start + |data|
    && m.sum == sum + data[..m.end - start]
    && IsWhole(data[..m.end - start])
    && m.line == count + Lines(data[..m.end - start])
    && m.start == start + Whole(data[..m.end - start - 1])
  }
}
