/** Findings in a text and their redaction (crates/core/src/dlp.rs): reading a spaced IBAN,
    keeping findings apart, and replacing them from the end. The text is its UTF-8 bytes;
    what the regular expressions match is taken as given. */
module Dlp {
  import opened CheckDigits
  import opened Stream
  import opened Wrappers

  datatype Finding = Finding(kind: Bytes, start: nat, end: nat)

  // --------------------------------------------------------------- finding IBANs

  predicate IsIbanByte(b: byte) { 65 <= b <= 90 || 48 <= b <= 57 }
  predicate IsAlphanumeric(b: byte) { IsIbanByte(b) || 97 <= b <= 122 }

  const SPACE: byte := 32

  /** Capital letters and digits, a single space allowed between any two. */
  predicate Grouped(t: Bytes) {
    && t != [] && IsIbanByte(t[0]) && IsIbanByte(t[|t| - 1])
    && (forall i :: 0 <= i < |t| ==> IsIbanByte(t[i]) || t[i] == SPACE)
    && (forall i :: 0 < i < |t| && t[i] == SPACE ==> t[i - 1] != SPACE)
  }

  function Unspaced(t: Bytes): string {
    if t == [] then []
    else Unspaced(t[..|t| - 1]) + if IsIbanByte(t[|t| - 1]) then [t[|t| - 1] as int as char] else []
  }

  /** More may follow at `i`: a letter or digit, or a space and then one. */
  predicate GoesOn(text: Bytes, i: nat) {
    i < |text| && (IsIbanByte(text[i]) || (text[i] == SPACE && i + 1 < |text| && IsIbanByte(text[i + 1])))
  }

  /** Between two turns of the reader: a spaced text so far, or one and the space before
      the letter or digit that is next. */
  ghost predicate Reading(text: Bytes, s: nat, i: nat)
    requires s <= i <= |text|
  {
    i == s || Grouped(text[s..i])
    || (i < |text| && IsIbanByte(text[i]) && i > s + 1 && text[i - 1] == SPACE && Grouped(text[s..i - 1]))
  }

  method ReadIban(text: Bytes, s: nat, len: nat) returns (compact: string, i: nat)
    requires s < |text| && IsIbanByte(text[s]) && len > 0
    ensures s < i <= |text| && Grouped(text[s..i]) && compact == Unspaced(text[s..i])
    ensures |compact| <= len && (|compact| < len ==> !GoesOn(text, i))
  {
    compact, i := [], s;
    assert text[s..s] == [];
    while |compact| < len && i < |text|
      invariant s <= i <= |text| && |compact| <= len
      invariant compact == Unspaced(text[s..i])
      invariant Reading(text, s, i) && (i > s ==> |compact| > 0) && (i == s || Grouped(text[s..i]) || |compact| < len)
      invariant i == s || Grouped(text[s..i]) || (i < |text| && IsIbanByte(text[i]))
      decreases |text| - i
    {
      hide Unspaced, Grouped, Reading;
      var b := text[i];
      if IsIbanByte(b) {
        OneMoreByte(text, s, i);
        ReadOne(text, s, i);
        compact := compact + [b as int as char];
        i := i + 1;
      } else if b == SPACE && |compact| > 0 && i + 1 < |text| && IsIbanByte(text[i + 1]) {
        OneMoreByte(text, s, i);
        ReadSpace(text, s, i);
        i := i + 1;
      } else {
        break;
      }
    }
  }

  lemma ReadOne(text: Bytes, s: nat, i: nat)
    requires s <= i < |text| && Reading(text, s, i) && IsIbanByte(text[i])
    ensures Grouped(text[s..i + 1]) && Reading(text, s, i + 1)
  {
    if i == s { assert text[s..s + 1] == [text[s]]; } else { GroupedGoesOn(text, s, i); }
  }

  lemma ReadSpace(text: Bytes, s: nat, i: nat)
    requires s < i && i + 1 < |text| && Grouped(text[s..i]) && text[i] == SPACE && IsIbanByte(text[i + 1])
    ensures Reading(text, s, i + 1)
  {
  }

  lemma OneMoreByte(text: Bytes, s: nat, i: nat)
    requires s <= i < |text|
    ensures Unspaced(text[s..i + 1]) == Unspaced(text[s..i]) + if IsIbanByte(text[i]) then [text[i] as int as char] else []
  {
    assert text[s..i + 1][..i - s] == text[s..i];
  }

  lemma GroupedGoesOn(text: Bytes, s: nat, i: nat)
    requires s < i < |text| && IsIbanByte(text[i])
    requires Grouped(text[s..i]) || (i > s + 1 && text[i - 1] == SPACE && Grouped(text[s..i - 1]))
    ensures Grouped(text[s..i + 1])
  {
    var t := text[s..i + 1];
    if Grouped(text[s..i]) {
      assert t == text[s..i] + [text[i]];
    } else {
      assert t == text[s..i - 1] + [SPACE, text[i]];
    }
  }

  function Country(text: Bytes, s: nat): string
    requires s + 2 <= |text|
  {
    [text[s] as int as char, text[s + 1] as int as char]
  }

  predicate HasLength(compact: string, len: nat) { |compact| == len && |compact| >= 4 && IsIban(compact) }

  /** What a finding is to be: a spaced text of a registered country's length, at whose end
      the word does not go on, and whose check digits hold. */
  ghost predicate IbanAt(text: Bytes, lengths: map<string, nat>, s: nat, e: nat) {
    && s + 2 <= |text| && s < e <= |text|
    && Country(text, s) in lengths
    && Grouped(text[s..e])
    && HasLength(Unspaced(text[s..e]), lengths[Country(text, s)])
    && (e == |text| || !IsAlphanumeric(text[e]))
  }

  predicate IsAscii(s: string) { forall i :: 0 <= i < |s| ==> s[i] as int < 128 }

  /** The bytes of a text of ASCII characters. */
  function BytesOf(s: string): (b: Bytes)
    requires IsAscii(s)
    ensures |b| == |s|
  {
    seq(|s|, i requires 0 <= i < |s| => s[i] as int as byte)
  }

  lemma {:induction false} UnspacedIsText(s: string)
    requires IsAscii(s) && forall i :: 0 <= i < |s| ==> 'A' <= s[i] <= 'Z' || '0' <= s[i] <= '9'
    ensures Unspaced(BytesOf(s)) == s
  {
    if s != [] {
      var front := s[..|s| - 1];
      UnspacedIsText(front);
      assert BytesOf(s)[..|s| - 1] == BytesOf(front);
    }
  }

  /** An IBAN written without spaces, with the length its first two letters are registered with,
      is one of those found. */
  lemma CompactIsFound(s: string, lengths: map<string, nat>)
    requires IsAscii(s) && forall i :: 0 <= i < |s| ==> 'A' <= s[i] <= 'Z' || '0' <= s[i] <= '9'
    requires |s| >= 4 && [s[0], s[1]] in lengths && lengths[[s[0], s[1]]] == |s| && IsIban(s)
    ensures IbanAt(BytesOf(s), lengths, 0, |s|)
  {
    hide IsIban, Unspaced;
    var t := BytesOf(s);
    assert t[0..|s|] == t;
    UnspacedIsText(s);
    assert Country(t, 0) == [s[0], s[1]];
  }

  /** And no letter or digit of either case may follow it. */
  lemma WordGoesOn(c: char)
    requires c as int < 128
    ensures IsAlphanumeric(c as int as byte) <==> 'A' <= c <= 'Z' || 'a' <= c <= 'z' || '0' <= c <= '9'
    ensures IsIbanByte(c as int as byte) <==> 'A' <= c <= 'Z' || '0' <= c <= '9'
    ensures c as int as byte == SPACE <==> c == ' '
  {
  }

  lemma {:induction false} MoreUnspaced(t: Bytes, u: Bytes)
    ensures |Unspaced(t + u)| == |Unspaced(t)| + |Unspaced(u)|
  {
    if u == [] {
      assert t + u == t;
    } else {
      assert (t + u)[..|t + u| - 1] == t + u[..|u| - 1];
      MoreUnspaced(t, u[..|u| - 1]);
    }
  }

  /** A longer spaced text has more letters and digits. */
  lemma LongerHasMore(text: Bytes, s: nat, d: nat, e: nat)
    requires s <= d < e <= |text| && Grouped(text[s..e])
    ensures |Unspaced(text[s..d])| < |Unspaced(text[s..e])|
  {
    assert text[s..e] == text[s..d] + text[d..e];
    MoreUnspaced(text[s..d], text[d..e]);
    assert text[d..e][|text[d..e]| - 1] == text[s..e][|text[s..e]| - 1];
  }

  /** The reader finds the one end there can be. */
  lemma ReadIsTheOnlyEnd(text: Bytes, s: nat, i: nat, len: nat, e: nat)
    requires s < i <= |text| && Grouped(text[s..i])
    requires |Unspaced(text[s..i])| <= len && (|Unspaced(text[s..i])| < len ==> !GoesOn(text, i))
    requires s < e <= |text| && Grouped(text[s..e]) && |Unspaced(text[s..e])| == len
    ensures i == e
  {
    hide Unspaced;
    if e < i { LongerHasMore(text, s, e, i); }
    if i < e {
      LongerHasMore(text, s, i, e);
      InsideGoesOn(text, s, i, e);
    }
  }

  lemma InsideGoesOn(text: Bytes, s: nat, i: nat, e: nat)
    requires s < i < e <= |text| && Grouped(text[s..e])
    ensures GoesOn(text, i)
  {
    var t := text[s..e];
    assert t[i - s] == text[i] && t[|t| - 1] == text[e - 1];
    if i + 1 < e { assert t[i + 1 - s] == text[i + 1]; }
  }

  /** Exactly the IBANs at the given starts are found. */
  method ScanIbans(text: Bytes, lengths: map<string, nat>, starts: seq<nat>, kind: Bytes) returns (found: seq<Finding>)
    requires forall k :: 0 <= k < |starts| ==> starts[k] + 4 <= |text| && IsIbanByte(text[starts[k]])
    requires forall c :: c in lengths ==> lengths[c] >= 4
    ensures forall f :: f in found ==> f.kind == kind && f.start in starts && IbanAt(text, lengths, f.start, f.end)
    ensures forall k, e: nat :: 0 <= k < |starts| && IbanAt(text, lengths, starts[k], e) ==> Finding(kind, starts[k], e) in found
  {
    found := [];
    for k := 0 to |starts|
      invariant forall f :: f in found ==> f.kind == kind && f.start in starts && IbanAt(text, lengths, f.start, f.end)
      invariant forall j, e: nat :: 0 <= j < k && IbanAt(text, lengths, starts[j], e) ==> Finding(kind, starts[j], e) in found
    {
      hide IbanAt, Unspaced, Grouped, IsIban;
      var end := IbanEnd(text, lengths, starts[k]);
      if end.Some? {
        found := found + [Finding(kind, starts[k], end.value)];
      }
    }
  }

  method IbanEnd(text: Bytes, lengths: map<string, nat>, s: nat) returns (end: Option<nat>)
    requires s + 4 <= |text| && IsIbanByte(text[s])
    requires forall c :: c in lengths ==> lengths[c] >= 4
    ensures end.Some? ==> IbanAt(text, lengths, s, end.value)
    ensures forall e: nat :: IbanAt(text, lengths, s, e) ==> end == Some(e)
  {
    hide Unspaced, Grouped, IsIban;
    if Country(text, s) !in lengths {
      return None;
    }
    var len := lengths[Country(text, s)];
    var compact, i := ReadIban(text, s, len);
    forall e: nat | IbanAt(text, lengths, s, e) ensures i == e {
      ReadIsTheOnlyEnd(text, s, i, len, e);
    }
    if |compact| < len || (i < |text| && IsAlphanumeric(text[i])) {
      return None;
    }
    var holds := IbanChecksumHolds(compact);
    end := if holds then Some(i) else None;
  }

  // ------------------------------------------------------------ keeping them apart

  predicate SpansOverlap(a: Finding, b: Finding) { a.start < b.end && b.start < a.end }

  /** Leftmost first, the longer first on a tie. */
  predicate NotAfter(a: Finding, b: Finding) { a.start < b.start || (a.start == b.start && a.end >= b.end) }

  /** The library's stable sort. */
  function Inserted(f: Finding, sorted: seq<Finding>): (r: seq<Finding>)
    ensures multiset(r) == multiset([f]) + multiset(sorted)
  {
    if sorted == [] then [f]
    else if NotAfter(f, sorted[0]) then [f] + sorted
    else
      assert sorted == [sorted[0]] + sorted[1..];
      [sorted[0]] + Inserted(f, sorted[1..])
  }

  function Sorted(found: seq<Finding>): (r: seq<Finding>)
    ensures multiset(r) == multiset(found)
  {
    if found == [] then []
    else
      assert found == [found[0]] + found[1..];
      Inserted(found[0], Sorted(found[1..]))
  }

  predicate InOrder(s: seq<Finding>) { forall i, j :: 0 <= i < j < |s| ==> NotAfter(s[i], s[j]) }

  lemma {:induction false} InsertedInOrder(f: Finding, sorted: seq<Finding>)
    requires InOrder(sorted)
    ensures InOrder(Inserted(f, sorted))
  {
    if sorted != [] && !NotAfter(f, sorted[0]) {
      InsertedInOrder(f, sorted[1..]);
      var rest := Inserted(f, sorted[1..]);
      forall j | 0 <= j < |rest| ensures NotAfter(sorted[0], rest[j]) {
        assert rest[j] in multiset(rest);
        assert rest[j] == f || rest[j] in sorted[1..];
      }
    }
  }

  lemma {:induction false} SortedInOrder(found: seq<Finding>)
    ensures InOrder(Sorted(found))
  {
    if found != [] {
      SortedInOrder(found[1..]);
      InsertedInOrder(found[0], Sorted(found[1..]));
    }
  }

  /** Each starts where the one before it ends, or later. */
  predicate Apart(s: seq<Finding>) {
    forall i, j :: 0 <= i < j < |s| ==> s[i].end <= s[j].start
  }

  /** Every span ends where it starts, or later. */
  predicate Forward(s: seq<Finding>) { forall f :: f in s ==> f.start <= f.end }

  predicate IsEmpty(f: Finding) { f.start == f.end }

  predicate NoneEmpty(s: seq<Finding>) { forall f :: f in s ==> f.start < f.end }

  /** What the loop keeps of findings in order: each one that starts no earlier than the end
      of the last one kept. */
  function Kept(sorted: seq<Finding>): seq<Finding> {
    if sorted == [] then []
    else
      var kept, f := Kept(sorted[..|sorted| - 1]), sorted[|sorted| - 1];
      if f.start >= LastEnd(kept) then kept + [f] else kept
  }

  function LastEnd(kept: seq<Finding>): nat {
    if kept == [] then 0 else kept[|kept| - 1].end
  }

  method DedupOverlaps(found: seq<Finding>) returns (result: seq<Finding>)
    ensures result == Kept(Sorted(found))
  {
    var sorted := Sorted(found);
    result := [];
    var lastEnd := 0;
    for i := 0 to |sorted|
      invariant result == Kept(sorted[..i]) && lastEnd == LastEnd(result)
    {
      assert sorted[..i + 1][..i] == sorted[..i];
      if sorted[i].start >= lastEnd {
        lastEnd := sorted[i].end;
        result := result + [sorted[i]];
      }
    }
    assert sorted[..|sorted|] == sorted;
  }

  /** `f` gives way to a finding of `kept` that starts no later and overlaps it. */
  ghost predicate GivesWay(f: Finding, kept: seq<Finding>) {
    exists k :: k in kept && k.start <= f.start && SpansOverlap(k, f)
  }

  lemma {:induction false} KeptIsApart(sorted: seq<Finding>)
    requires InOrder(sorted) && Forward(sorted)
    ensures Apart(Kept(sorted)) && Forward(Kept(sorted)) && InOrder(Kept(sorted))
    ensures forall k :: k in Kept(sorted) ==> k in sorted
  {
    if sorted != [] {
      hide Apart, InOrder, NotAfter;
      var front, f := sorted[..|sorted| - 1], sorted[|sorted| - 1];
      FrontInOrder(sorted);
      KeptIsApart(front);
      var before := Kept(front);
      if f.start >= LastEnd(before) {
        LastApart(before, f);
        LastInOrder(before, front, f);
      }
    }
  }

  lemma FrontInOrder(sorted: seq<Finding>)
    requires InOrder(sorted) && Forward(sorted) && sorted != []
    ensures var front, f := sorted[..|sorted| - 1], sorted[|sorted| - 1];
            sorted == front + [f] && InOrder(front) && Forward(front) && f in sorted
  {
  }

  lemma LastApart(kept: seq<Finding>, f: Finding)
    requires Apart(kept) && Forward(kept) && LastEnd(kept) <= f.start <= f.end
    ensures Apart(kept + [f])
  {
    EndsBefore(kept, f.start);
  }

  /** What is dropped is empty or gives way to one that is kept. */
  lemma {:induction false} DroppedGiveWay(sorted: seq<Finding>)
    requires InOrder(sorted) && Forward(sorted)
    ensures forall f :: f in sorted ==> f in Kept(sorted) || IsEmpty(f) || GivesWay(f, Kept(sorted))
  {
    if sorted != [] {
      hide Apart, InOrder, GivesWay, IsEmpty;
      var front, f := sorted[..|sorted| - 1], sorted[|sorted| - 1];
      FrontInOrder(sorted);
      KeptIsApart(front);
      DroppedGiveWay(front);
      var before, kept := Kept(front), Kept(sorted);
      assert before <= kept;
      if f.start < LastEnd(before) {
        assert before[|before| - 1] in front;
        StartsNoLater(sorted, before[|before| - 1]);
        OverlapsLast(before, f);
      } else {
        assert kept[|kept| - 1] == f;
      }
      forall g | g in sorted ensures g in kept || IsEmpty(g) || GivesWay(g, kept) {
        if g in front && !IsEmpty(g) { StillGivesWay(g, before, kept); }
      }
    }
  }

  lemma StartsNoLater(sorted: seq<Finding>, k: Finding)
    requires InOrder(sorted) && sorted != [] && k in sorted[..|sorted| - 1]
    ensures k.start <= sorted[|sorted| - 1].start
  {
    var i :| 0 <= i < |sorted| - 1 && sorted[i] == k;
    assert NotAfter(sorted[i], sorted[|sorted| - 1]);
  }

  lemma OverlapsLast(kept: seq<Finding>, f: Finding)
    requires kept != [] && kept[|kept| - 1].start <= f.start < kept[|kept| - 1].end && f.start <= f.end
    ensures IsEmpty(f) || GivesWay(f, kept)
  {
    assert kept[|kept| - 1] in kept;
  }

  lemma StillGivesWay(g: Finding, before: seq<Finding>, kept: seq<Finding>)
    requires before <= kept && (g in before || GivesWay(g, before))
    ensures g in kept || GivesWay(g, kept)
  {
    assert forall k :: k in before ==> k in kept;
  }

  lemma LastInOrder(kept: seq<Finding>, front: seq<Finding>, f: Finding)
    requires InOrder(kept) && InOrder(front + [f]) && forall k :: k in kept ==> k in front
    ensures InOrder(kept + [f])
  {
    forall i | 0 <= i < |kept| ensures NotAfter(kept[i], f) {
      assert kept[i] in front;
      var j :| 0 <= j < |front| && front[j] == kept[i];
      assert NotAfter((front + [f])[j], (front + [f])[|front|]);
    }
  }

  lemma EndsBefore(kept: seq<Finding>, at: nat)
    requires Apart(kept) && Forward(kept) && LastEnd(kept) <= at
    ensures forall i :: 0 <= i < |kept| ==> kept[i].end <= at
  {
    forall i | 0 <= i < |kept| ensures kept[i].end <= at {
      var last := |kept| - 1;
      assert kept[last] in kept;
      if i < last { assert kept[i].end <= kept[last].start; }
    }
  }

  /** The findings that are kept lie apart, are findings, and every one that is dropped is
      empty or overlaps a kept one that starts no later. */
  lemma DedupKeepsApart(found: seq<Finding>)
    requires Forward(found)
    ensures var kept := Kept(Sorted(found));
            && Apart(kept) && Forward(kept) && InOrder(kept)
            && (forall k :: k in kept ==> k in found)
            && (forall f :: f in found ==> f in kept || IsEmpty(f) || GivesWay(f, kept))
  {
    hide Sorted, Kept, GivesWay;
    var sorted := Sorted(found);
    SortedInOrder(found);
    forall f ensures f in sorted <==> f in found {
      assert f in multiset(sorted) <==> f in multiset(found);
    }
    KeptIsApart(sorted);
    DroppedGiveWay(sorted);
  }

  /** A finding that is not empty and overlaps no other is never dropped. */
  lemma LonelyIsKept(found: seq<Finding>, f: Finding)
    requires Forward(found) && f in found && !IsEmpty(f)
    requires forall g :: g in found && g != f ==> !SpansOverlap(g, f)
    ensures f in Kept(Sorted(found))
  {
    DedupKeepsApart(found);
    hide Kept, Sorted;
  }

  // ------------------------------------------------------------------- redaction

  /** Where a character of the text starts, or the text ends. */
  predicate IsBoundary(text: Bytes, i: nat) {
    i == |text| || (i < |text| && (text[i] < 128 || text[i] >= 192))
  }

  predicate CanReplace(text: Bytes, f: Finding) {
    f.end <= |text| && IsBoundary(text, f.start) && IsBoundary(text, f.end)
  }

  /** `[REDACTED:kind]` */
  function Token(kind: Bytes): (t: Bytes)
    ensures t != [] && t[0] < 128
  {
    [91, 82, 69, 68, 65, 67, 84, 69, 68, 58] + kind + [93]
  }

  lemma TokenIsText(kind: string)
    requires IsAscii(kind) && IsAscii("[REDACTED:" + kind + "]")
    ensures Token(BytesOf(kind)) == BytesOf("[REDACTED:" + kind + "]")
  {
    var t, text := Token(BytesOf(kind)), "[REDACTED:" + kind + "]";
    assert |t| == |text|;
    forall i | 0 <= i < |t| ensures t[i] == BytesOf(text)[i] {
      if i < 10 {
        assert text[i] == "[REDACTED:"[i];
      } else if i < 10 + |kind| {
        assert text[i] == kind[i - 10];
      }
    }
  }

  function Replaced(text: Bytes, f: Finding): Bytes {
    if CanReplace(text, f) then text[..f.start] + Token(f.kind) + text[f.end..] else text
  }

  /** The library's stable sort by falling start. */
  function InsertedDown(f: Finding, down: seq<Finding>): (r: seq<Finding>)
    ensures multiset(r) == multiset([f]) + multiset(down)
  {
    if down == [] then [f]
    else if f.start >= down[0].start then [f] + down
    else
      assert down == [down[0]] + down[1..];
      [down[0]] + InsertedDown(f, down[1..])
  }

  function SortedDown(findings: seq<Finding>): (r: seq<Finding>)
    ensures multiset(r) == multiset(findings)
  {
    if findings == [] then []
    else
      assert findings == [findings[0]] + findings[1..];
      InsertedDown(findings[0], SortedDown(findings[1..]))
  }

  function AllReplaced(text: Bytes, ordered: seq<Finding>): Bytes {
    if ordered == [] then text
    else Replaced(AllReplaced(text, ordered[..|ordered| - 1]), ordered[|ordered| - 1])
  }

  /** From the end, so that the offsets still to come stay valid. */
  method Redact(text: Bytes, findings: seq<Finding>) returns (s: Bytes)
    requires forall f :: f in findings ==> f.start <= f.end
    ensures s == AllReplaced(text, SortedDown(findings))
  {
    s := text;
    var ordered := SortedDown(findings);
    for i := 0 to |ordered|
      invariant s == AllReplaced(text, ordered[..i])
    {
      var f := ordered[i];
      assert ordered[..i + 1][..i] == ordered[..i];
      if f.end <= |s| && IsBoundary(s, f.start) && IsBoundary(s, f.end) {
        s := s[..f.start] + Token(f.kind) + s[f.end..];
      }
    }
    assert ordered[..|ordered|] == ordered;
  }

  /** What redaction is to be: from the left, every byte outside the findings kept and each
      finding of the text as it was replaced by its token. */
  function Spliced(text: Bytes, findings: seq<Finding>, from: nat): Bytes
    requires from <= |text|
    decreases |findings|
  {
    if findings == [] then text[from..]
    else
      var f := findings[0];
      if from <= f.start <= f.end && CanReplace(text, f)
      then text[from..f.start] + Token(f.kind) + Spliced(text, findings[1..], f.end)
      else Spliced(text, findings[1..], from)
  }

  function Reversed<T>(s: seq<T>): (r: seq<T>)
    ensures |r| == |s|
  {
    if s == [] then [] else Reversed(s[1..]) + [s[0]]
  }

  /** The order that replacing from the end amounts to, from the left. */
  function FromTheLeft(findings: seq<Finding>): seq<Finding> {
    Reversed(SortedDown(findings))
  }

  lemma {:induction false} ReversedTwice<T>(s: seq<T>)
    ensures Reversed(Reversed(s)) == s
    ensures forall x :: x in Reversed(s) <==> x in s
  {
    if s != [] {
      ReversedTwice(s[1..]);
      ReversedLast(Reversed(s[1..]), s[0]);
      assert s == [s[0]] + s[1..];
    }
  }

  lemma {:induction false} ReversedLast<T>(s: seq<T>, x: T)
    ensures Reversed(s + [x]) == [x] + Reversed(s)
  {
    if s == [] {
      assert s + [x] == [x];
    } else {
      assert (s + [x])[1..] == s[1..] + [x];
      ReversedLast(s[1..], x);
    }
  }

  predicate StartsRise(s: seq<Finding>) { forall i, j :: 0 <= i < j < |s| ==> s[i].start < s[j].start }

  /** When no two start at one place, that order is the findings' own. */
  lemma {:induction false} RisingIsFromTheLeft(s: seq<Finding>)
    requires StartsRise(s)
    ensures FromTheLeft(s) == s
  {
    DownIsReversed(s);
    ReversedTwice(s);
  }

  lemma {:induction false} DownIsReversed(s: seq<Finding>)
    requires StartsRise(s)
    ensures SortedDown(s) == Reversed(s)
  {
    if s != [] {
      hide StartsRise, InsertedDown;
      FirstIsLowest(s);
      DownIsReversed(s[1..]);
      ReversedTwice(s[1..]);
      GoesLast(s[0], Reversed(s[1..]));
    }
  }

  lemma FirstIsLowest(s: seq<Finding>)
    requires StartsRise(s) && s != []
    ensures StartsRise(s[1..]) && forall g :: g in s[1..] ==> s[0].start < g.start
  {
    forall g | g in s[1..] ensures s[0].start < g.start {
      var i :| 0 <= i < |s[1..]| && s[1..][i] == g;
      assert s[i + 1] == g;
    }
  }

  lemma {:induction false} GoesLast(f: Finding, down: seq<Finding>)
    requires forall g :: g in down ==> f.start < g.start
    ensures InsertedDown(f, down) == down + [f]
  {
    if down != [] {
      assert down[0] in down;
      GoesLast(f, down[1..]);
      assert down + [f] == [down[0]] + (down[1..] + [f]);
    }
  }

  /** Each ends where the one before it starts, or earlier. */
  predicate DownApart(down: seq<Finding>) {
    forall i, j :: 0 <= i < j < |down| ==> down[j].end <= down[i].start
  }

  /** Two that start at one place, as dedup leaves them, are empty. */
  lemma {:induction false} SortedDownApart(s: seq<Finding>)
    requires Apart(s) && Forward(s) && InOrder(s)
    ensures DownApart(SortedDown(s)) && Forward(SortedDown(s))
  {
    if s != [] {
      hide Apart, InOrder, DownApart;
      var down := SortedDown(s[1..]);
      AfterFirst(s);
      SortedDownApart(s[1..]);
      forall g | g in down ensures g in s[1..] {
        assert g in multiset(down);
      }
      InsertedDownApart(s[0], down);
    }
  }

  lemma AfterFirst(s: seq<Finding>)
    requires Apart(s) && Forward(s) && InOrder(s) && s != []
    ensures Apart(s[1..]) && Forward(s[1..]) && InOrder(s[1..]) && s[0].start <= s[0].end
    ensures forall g :: g in s[1..] ==> s[0].end <= g.start && (g.start == s[0].start ==> IsEmpty(g))
  {
    assert s[0] in s;
    forall g | g in s[1..] ensures s[0].end <= g.start && (g.start == s[0].start ==> IsEmpty(g)) {
      var i :| 0 <= i < |s[1..]| && s[1..][i] == g;
      assert s[i + 1] == g && g in s;
      assert NotAfter(s[0], s[i + 1]) && s[0].end <= s[i + 1].start;
    }
  }

  lemma {:induction false} InsertedDownApart(f: Finding, down: seq<Finding>)
    requires DownApart(down) && Forward(down) && f.start <= f.end
    requires forall g :: g in down ==> f.end <= g.start && (g.start == f.start ==> IsEmpty(g))
    ensures DownApart(InsertedDown(f, down)) && Forward(InsertedDown(f, down))
  {
    if down != [] {
      hide DownApart;
      var first, tail := down[0], down[1..];
      TailApart(down);
      if f.start >= first.start {
        ConsDownApart(f, down);
      } else {
        InsertedDownApart(f, tail);
        InsertedHolds(f, tail);
        ConsDownApart(first, InsertedDown(f, tail));
      }
    }
  }

  lemma InsertedHolds(f: Finding, down: seq<Finding>)
    ensures forall g :: g in InsertedDown(f, down) ==> g == f || g in down
  {
    hide InsertedDown;
    forall g | g in InsertedDown(f, down) ensures g == f || g in down {
      assert g in multiset(InsertedDown(f, down));
    }
  }

  lemma TailApart(down: seq<Finding>)
    requires DownApart(down) && down != []
    ensures DownApart(down[1..]) && forall g :: g in down[1..] ==> g in down && g.end <= down[0].start
    ensures down[0] in down
  {
    forall g | g in down[1..] ensures g in down && g.end <= down[0].start {
      var i :| 0 <= i < |down[1..]| && down[1..][i] == g;
      assert down[i + 1] == g;
    }
  }

  lemma ConsDownApart(x: Finding, rest: seq<Finding>)
    requires DownApart(rest) && forall g :: g in rest ==> g.end <= x.start
    ensures DownApart([x] + rest)
  {
  }

  lemma {:induction false} ReversedHolds<T>(s: seq<T>)
    ensures forall x :: x in Reversed(s) <==> x in s
  {
    if s != [] {
      ReversedHolds(s[1..]);
      assert s == [s[0]] + s[1..];
    }
  }

  lemma AppendApart(front: seq<Finding>, f: Finding)
    requires Apart(front) && Forward(front) && f.start <= f.end && forall g :: g in front ==> g.end <= f.start
    ensures Apart(front + [f]) && Forward(front + [f])
  {
  }

  lemma {:induction false} ReversedApart(down: seq<Finding>)
    requires DownApart(down) && Forward(down)
    ensures Apart(Reversed(down)) && Forward(Reversed(down))
  {
    if down != [] {
      hide Apart, DownApart;
      TailApart(down);
      ReversedApart(down[1..]);
      ReversedHolds(down[1..]);
      AppendApart(Reversed(down[1..]), down[0]);
    } else {
      NothingIsApart();
    }
  }

  lemma NothingIsApart()
    ensures Apart([]) && Forward([])
  {
  }

  /** Replacing from the end what lies at or after `from` leaves the front as it was, and
      puts the splice of the rest after it. */
  lemma {:induction false} ReplacedFromTheEnd(text: Bytes, s: seq<Finding>, from: nat)
    requires Apart(s) && Forward(s) && from <= |text| && StartsAt(s, from)
    ensures AllReplaced(text, Reversed(s)) == text[..from] + Spliced(text, s, from)
    decreases |s|
  {
    if s == [] {
      assert text == text[..from] + text[from..];
    } else {
      hide Apart, Forward, StartsAt, CanReplace, Reversed, Spliced, Replaced;
      var f, rest := s[0], s[1..];
      FirstAndRest(s, from);
      LastReplaced(text, s);
      ReplacedFromTheEnd(text, rest, from);
      if f.end <= |text| {
        ReplacedFromTheEnd(text, rest, f.end);
        SameBoundaries(text, rest, f);
        OneMoreSplice(text, s, from);
        ReplacedOnce(text, f, Spliced(text, rest, f.end), from);
      } else {
        PastTheEnd(s, from, |text|);
        NothingFits(text, rest, from);
        TooFar(text, s, from);
      }
    }
  }

  predicate StartsAt(s: seq<Finding>, from: nat) { forall f :: f in s ==> from <= f.start }

  lemma FirstAndRest(s: seq<Finding>, from: nat)
    requires Apart(s) && Forward(s) && StartsAt(s, from) && s != []
    ensures Apart(s[1..]) && Forward(s[1..]) && StartsAt(s[1..], from) && StartsAt(s[1..], s[0].end)
    ensures from <= s[0].start <= s[0].end
  {
    assert s[0] in s;
    forall f | f in s[1..] ensures s[0].end <= f.start {
      var i :| 0 <= i < |s[1..]| && s[1..][i] == f;
      assert s[i + 1] == f;
    }
  }

  lemma PastTheEnd(s: seq<Finding>, from: nat, end: nat)
    requires Forward(s) && s != [] && StartsAt(s[1..], s[0].end) && s[0].end > end
    ensures forall f :: f in s[1..] ==> f.end > end
  {
  }

  lemma LastReplaced(text: Bytes, s: seq<Finding>)
    requires s != []
    ensures AllReplaced(text, Reversed(s)) == Replaced(AllReplaced(text, Reversed(s[1..])), s[0])
  {
    assert Reversed(s)[..|s| - 1] == Reversed(s[1..]);
  }

  lemma OneMoreSplice(text: Bytes, s: seq<Finding>, from: nat)
    requires s != [] && from <= s[0].start <= s[0].end && from <= |text|
    ensures CanReplace(text, s[0]) ==>
              from <= s[0].start <= |text| && s[0].end <= |text|
              && Spliced(text, s, from) == text[from..s[0].start] + Token(s[0].kind) + Spliced(text, s[1..], s[0].end)
    ensures !CanReplace(text, s[0]) ==> Spliced(text, s, from) == Spliced(text, s[1..], from)
  {
  }

  /** What begins the splice begins a character exactly where the text does. */
  lemma {:induction false} SpliceHead(text: Bytes, s: seq<Finding>, from: nat)
    requires Forward(s) && StartsAt(s, from) && from <= |text|
    ensures var after := Spliced(text, s, from);
            && (after == [] ==> from == |text|)
            && (after == [] || after[0] < 128 || after[0] >= 192 <==> IsBoundary(text, from))
    decreases |s|
  {
    if s != [] {
      hide Spliced;
      assert s[0] in s;
      assert Forward(s[1..]) && StartsAt(s[1..], from);
      SpliceHead(text, s[1..], from);
      OneMoreSplice(text, s, from);
    } else {
      assert Spliced(text, s, from) == text[from..];
    }
  }

  /** Whether a finding can be replaced does not depend on what was done after it. */
  lemma SameBoundaries(text: Bytes, rest: seq<Finding>, f: Finding)
    requires f.start <= f.end <= |text| && Forward(rest) && StartsAt(rest, f.end)
    ensures CanReplace(text[..f.end] + Spliced(text, rest, f.end), f) <==> CanReplace(text, f)
  {
    hide Spliced, Forward, StartsAt;
    SpliceHead(text, rest, f.end);
  }

  lemma ReplacedOnce(text: Bytes, f: Finding, after: Bytes, from: nat)
    requires from <= f.start <= f.end <= |text|
    ensures Replaced(text[..f.end] + after, f)
         == if CanReplace(text[..f.end] + after, f) then text[..from] + (text[from..f.start] + Token(f.kind) + after)
            else text[..f.end] + after
  {
    hide CanReplace, Token;
    var t := text[..f.end] + after;
    assert t[..f.start] == text[..from] + text[from..f.start] && t[f.end..] == after;
    if CanReplace(t, f) {
      assert t[..f.start] + Token(f.kind) + t[f.end..] == text[..from] + (text[from..f.start] + Token(f.kind) + after);
    }
  }

  /** Past the end of the text nothing is replaced. */
  lemma {:induction false} NothingFits(text: Bytes, s: seq<Finding>, from: nat)
    requires from <= |text| && forall f :: f in s ==> f.end > |text|
    ensures Spliced(text, s, from) == text[from..]
    decreases |s|
  {
    if s != [] {
      assert s[0] in s;
      NothingFits(text, s[1..], from);
    }
  }

  lemma TooFar(text: Bytes, s: seq<Finding>, from: nat)
    requires s != [] && from <= |text| < s[0].end && Spliced(text, s[1..], from) == text[from..]
    ensures Spliced(text, s, from) == text[from..]
    ensures text[..from] + text[from..] == text && Replaced(text, s[0]) == text
  {
  }

  /** Redaction from the end is the splice from the left, whenever the findings so ordered lie
      apart: for any number of them and any length of token. */
  lemma RedactionIsSplice(text: Bytes, findings: seq<Finding>)
    requires Apart(FromTheLeft(findings)) && Forward(FromTheLeft(findings))
    ensures AllReplaced(text, SortedDown(findings)) == Spliced(text, FromTheLeft(findings), 0)
  {
    hide Spliced, AllReplaced, SortedDown;
    ReversedTwice(SortedDown(findings));
    ReplacedFromTheEnd(text, FromTheLeft(findings), 0);
    assert text[..0] + Spliced(text, FromTheLeft(findings), 0) == Spliced(text, FromTheLeft(findings), 0);
  }

  /** ... and so it is for whatever was found and de-overlapped; in the findings' own order,
      unless two empty ones are left at one place. */
  lemma ScannedTextIsSpliced(text: Bytes, found: seq<Finding>)
    requires Forward(found)
    ensures var kept := Kept(Sorted(found));
            && AllReplaced(text, SortedDown(kept)) == Spliced(text, FromTheLeft(kept), 0)
            && (NoneEmpty(kept) ==> FromTheLeft(kept) == kept)
  {
    hide Spliced, AllReplaced, Sorted, Kept, SortedDown, Reversed;
    var kept := Kept(Sorted(found));
    DedupKeepsApart(found);
    SortedDownApart(kept);
    ReversedApart(SortedDown(kept));
    RedactionIsSplice(text, kept);
    if NoneEmpty(kept) {
      forall i, j | 0 <= i < j < |kept| ensures kept[i].start < kept[j].start {
        assert kept[i] in kept && kept[i].end <= kept[j].start;
      }
      assert StartsRise(kept);
      RisingIsFromTheLeft(kept);
    }
  }
}
