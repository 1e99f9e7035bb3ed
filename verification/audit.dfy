/** The audit chain and its signed tip (crates/core/src/audit.rs,
    crates/cloud/src/audit_sign.rs): what an equal tip hash, or an equal manifest, says
    about everything under it.

    SHA-256 is an argument. Where a property needs it, the digest is injective and not
    empty, and that is said there. */
module Audit {
  import opened Numbers
  import opened Stream
  import opened Wrappers

  const SEP: char := '\U{1F}'

  type Digest = string -> Bytes

  ghost predicate Collisionless(digest: Digest) {
    (forall s, t :: digest(s) == digest(t) ==> s == t) && forall s :: digest(s) != []
  }

  datatype Entry = Entry(
    number: nat, at: int, actor: string, action: string, subject: string, detail: string,
    prevHash: string, entryHash: string)

  // ------------------------------------------------------------------ the texts

  predicate IsControl(c: char) { c as int < 0x20 }

  function Clean(c: char): char { if IsControl(c) then '\U{FFFD}' else c }

  /** Every control character replaced. */
  function Sanitized(s: string): (r: string)
    ensures |r| == |s|
    ensures forall i :: 0 <= i < |s| ==> r[i] == Clean(s[i])
  {
    if s == [] then [] else Sanitized(s[..|s| - 1]) + [Clean(s[|s| - 1])]
  }

  /** No separator is left; a text is unchanged exactly when it held no control character. */
  lemma SanitizedIsClean(s: string)
    ensures SEP !in Sanitized(s)
    ensures Sanitized(s) == s <==> forall c :: c in s ==> !IsControl(c)
    ensures Sanitized(Sanitized(s)) == Sanitized(s)
  {
    if Sanitized(s) == s {
      forall c | c in s ensures !IsControl(c) {
        var i :| 0 <= i < |s| && s[i] == c;
        assert Sanitized(s)[i] == Clean(c);
      }
    }
  }

  /** With the source's shortcut: a text without control characters is kept as it is. */
  method SanitizeField(s: string) returns (r: string)
    ensures r == Sanitized(s)
  {
    if forall i :: 0 <= i < |s| ==> !IsControl(s[i]) {
      SanitizedIsClean(s);
      return s;
    }
    r := "";
    for i := 0 to |s|
      invariant r == Sanitized(s[..i])
    {
      assert s[..i + 1][..i] == s[..i];
      r := r + [Clean(s[i])];
    }
    assert s[..|s|] == s;
  }

  function Signed(n: int): string {
    if n < 0 then ['-'] + DigitsOf(-n) else DigitsOf(n)
  }

  lemma SignedIsInjective(m: int, n: int)
    requires Signed(m) == Signed(n)
    ensures m == n
  {
    hide DigitsOf, NatOf;
    DigitsOfValue(if m < 0 then -m else m);
    DigitsOfValue(if n < 0 then -n else n);
    assert m < 0 ==> Signed(m)[1..] == DigitsOf(-m);
    assert n < 0 ==> Signed(n)[1..] == DigitsOf(-n);
  }

  lemma SignedHasNoSeparator(n: int)
    ensures Count(Signed(n)) == 0
  {
    hide DigitsOf, Count;
    CountZero(Signed(n));
  }

  function HexDigit(d: nat): (c: char)
    requires d < 16
  {
    if d < 10 then '0' + d as char else 'a' + (d - 10) as char
  }

  function HexByte(b: byte): string { [HexDigit(b as nat / 16), HexDigit(b as nat % 16)] }

  function Hex(bytes: Bytes): (s: string)
    ensures |s| == 2 * |bytes|
  {
    if bytes == [] then [] else Hex(bytes[..|bytes| - 1]) + HexByte(bytes[|bytes| - 1])
  }

  method HexLower(bytes: Bytes) returns (s: string)
    ensures s == Hex(bytes)
  {
    s := "";
    for i := 0 to |bytes|
      invariant s == Hex(bytes[..i])
    {
      assert bytes[..i + 1][..i] == bytes[..i];
      s := s + HexByte(bytes[i]);
    }
    assert bytes[..|bytes|] == bytes;
  }

  lemma {:induction false} HexIsInjective(a: Bytes, b: Bytes)
    requires Hex(a) == Hex(b)
    ensures a == b
  {
    if a != [] {
      hide HexByte;
      var x, y := a[|a| - 1], b[|b| - 1];
      HexByteIsInjective(x, y);
      EqualEnds(Hex(a[..|a| - 1]), HexByte(x), Hex(b[..|b| - 1]), HexByte(y));
      HexIsInjective(a[..|a| - 1], b[..|b| - 1]);
      assert a == a[..|a| - 1] + [x] && b == b[..|b| - 1] + [y];
    }
  }

  lemma EqualEnds<T>(a: seq<T>, x: seq<T>, b: seq<T>, y: seq<T>)
    requires a + x == b + y && |x| == |y|
    ensures a == b && x == y
  {
    assert a == (a + x)[..|a|] && b == (b + y)[..|b|];
    assert x == (a + x)[|a|..] && y == (b + y)[|b|..];
  }

  lemma HexByteIsInjective(x: byte, y: byte)
    ensures |HexByte(x)| == |HexByte(y)| == 2
    ensures HexByte(x) == HexByte(y) ==> x == y
    ensures Count(HexByte(x)) == 0
  {
    assert HexByte(x)[0] == HexDigit(x as nat / 16) && HexByte(y)[0] == HexDigit(y as nat / 16);
    assert HexByte(x)[1] == HexDigit(x as nat % 16) && HexByte(y)[1] == HexDigit(y as nat % 16);
    CountZero(HexByte(x));
  }

  lemma {:induction false} HexHasNoSeparator(bytes: Bytes)
    ensures Count(Hex(bytes)) == 0
  {
    if bytes != [] {
      hide HexByte, Count;
      HexHasNoSeparator(bytes[..|bytes| - 1]);
      HexByteIsInjective(bytes[|bytes| - 1], 0);
      CountAppend(Hex(bytes[..|bytes| - 1]), HexByte(bytes[|bytes| - 1]));
    }
  }

  // -------------------------------------------------------- joining and splitting

  /** How many separators there are. */
  function Count(s: string): nat {
    if s == [] then 0 else (if s[0] == SEP then 1 else 0) + Count(s[1..])
  }

  lemma {:induction false} CountAppend(s: string, t: string)
    ensures Count(s + t) == Count(s) + Count(t)
  {
    if s == [] {
      assert s + t == t;
    } else {
      assert (s + t)[1..] == s[1..] + t;
      CountAppend(s[1..], t);
    }
  }

  lemma {:induction false} CountZero(s: string)
    ensures Count(s) == 0 <==> SEP !in s
  {
    if s != [] {
      assert s == [s[0]] + s[1..];
      CountZero(s[1..]);
    }
  }

  function Joined(fields: seq<string>): string
    requires fields != []
  {
    if |fields| == 1 then fields[0] else fields[0] + [SEP] + Joined(fields[1..])
  }

  function Separators(fields: seq<string>): nat {
    if fields == [] then 0 else Count(fields[0]) + Separators(fields[1..])
  }

  lemma {:induction false} JoinedCount(fields: seq<string>)
    requires fields != []
    ensures Count(Joined(fields)) == Separators(fields) + |fields| - 1
  {
    if |fields| > 1 {
      JoinedCount(fields[1..]);
      CountAppend(fields[0] + [SEP], Joined(fields[1..]));
      CountAppend(fields[0], [SEP]);
      assert Count([SEP]) == 1;
    } else {
      assert Separators(fields[1..]) == 0;
    }
  }

  lemma FirstFieldIsUnique(x: string, y: string, x': string, y': string)
    requires Count(x) == 0 && Count(x') == 0
    requires x + [SEP] + y == x' + [SEP] + y'
    ensures x == x' && y == y'
  {
    NoSeparatorWithin(x, y, x', y');
    NoSeparatorWithin(x', y', x, y);
    var s := x + [SEP] + y;
    assert x == s[..|x|] == x';
    assert y == s[|x| + 1..] == y';
  }

  lemma NoSeparatorWithin(x: string, y: string, x': string, y': string)
    requires Count(x') == 0 && x + [SEP] + y == x' + [SEP] + y'
    ensures |x| >= |x'|
  {
    hide Count;
    CountZero(x');
    assert (x + [SEP] + y)[|x|] == SEP;
    assert forall i :: 0 <= i < |x'| ==> (x' + [SEP] + y')[i] == x'[i];
  }

  /** Joined texts of as many fields are equal only if the fields are, when one side's
      fields are known to hold no separator. The other side's need not be. */
  lemma {:induction false} JoinedIsUnique(a: seq<string>, b: seq<string>)
    requires a != [] && |a| == |b| && Separators(a) == 0 && Joined(a) == Joined(b)
    ensures a == b
  {
    JoinedCount(a);
    JoinedCount(b);
    SplitsAlike(a, b);
  }

  lemma {:induction false} SplitsAlike(a: seq<string>, b: seq<string>)
    requires a != [] && |a| == |b| && Separators(a) == 0 && Separators(b) == 0 && Joined(a) == Joined(b)
    ensures a == b
  {
    if |a| == 1 {
      assert a == [a[0]] && b == [b[0]];
    } else {
      FirstFieldIsUnique(a[0], Joined(a[1..]), b[0], Joined(b[1..]));
      SplitsAlike(a[1..], b[1..]);
      assert a == [a[0]] + a[1..] && b == [b[0]] + b[1..];
    }
  }

  // ------------------------------------------------------------------- the chain

  function FieldsOf(e: Entry): seq<string> {
    [DigitsOf(e.number), Signed(e.at), e.actor, e.action, e.subject, e.detail, e.prevHash]
  }

  function ComputeHash(digest: Digest, e: Entry): string {
    Hex(digest(Joined(FieldsOf(e))))
  }

  function Append(
    digest: Digest, prev: Option<Entry>, at: int, actor: string, action: string, subject: string, detail: string): Entry
  {
    var e := Entry(
      if prev.Some? then prev.value.number + 1 else 0, at,
      Sanitized(actor), Sanitized(action), Sanitized(subject), Sanitized(detail),
      if prev.Some? then prev.value.entryHash else "", "");
    e.(entryHash := ComputeHash(digest, e))
  }

  function Tip(chain: seq<Entry>): Option<Entry> {
    if chain == [] then None else Some(chain[|chain| - 1])
  }

  /** The entry passes the checks after `prev`. */
  predicate Follows(digest: Digest, prev: Option<Entry>, e: Entry) {
    && e.number == (if prev.Some? then prev.value.number + 1 else 0)
    && e.prevHash == (if prev.Some? then prev.value.entryHash else "")
    && e.entryHash == ComputeHash(digest, e)
  }

  predicate Intact(digest: Digest, chain: seq<Entry>) {
    chain == []
    || (Intact(digest, chain[..|chain| - 1]) && Follows(digest, Tip(chain[..|chain| - 1]), chain[|chain| - 1]))
  }

  /** The chain verifies, or the index is that of the first entry that fails. */
  method VerifyChain(digest: Digest, entries: seq<Entry>) returns (bad: Option<nat>)
    ensures bad.None? <==> Intact(digest, entries)
    ensures bad.None? <==> AllPass(digest, entries)
    ensures bad.Some? ==> bad.value < |entries| && !PassesAt(digest, entries, bad.value)
                          && forall i :: 0 <= i < bad.value ==> PassesAt(digest, entries, i)
    ensures bad.Some? ==> bad.value < |entries| && Intact(digest, entries[..bad.value])
                          && !Intact(digest, entries[..bad.value + 1])
  {
    hide Intact, ComputeHash, PassesAt;
    EmptyIsIntact(digest, entries);
    IntactMeans(digest, entries);
    var prev: Option<Entry> := None;
    for i := 0 to |entries|
      invariant Intact(digest, entries[..i]) && prev == Tip(entries[..i])
    {
      var e := entries[i];
      var number := if prev.Some? then prev.value.number + 1 else 0;
      var prevHash := if prev.Some? then prev.value.entryHash else "";
      OneMoreEntry(digest, entries, i);
      BadStaysBad(digest, entries, i + 1);
      FirstBadFails(digest, entries, i);
      if e.number != number || e.prevHash != prevHash {
        return Some(i);
      }
      if ComputeHash(digest, e) != e.entryHash {
        return Some(i);
      }
      prev := Some(e);
    }
    assert entries[..|entries|] == entries;
    bad := None;
  }

  /** The entry at `i` has its number, names the hash before it, and carries its own. */
  ghost predicate PassesAt(digest: Digest, chain: seq<Entry>, i: nat)
    requires i < |chain|
  {
    && chain[i].number == i && chain[i].prevHash == (if i == 0 then "" else chain[i - 1].entryHash)
    && IsHexOf(chain[i].entryHash, digest(Preimage(chain[i])))
  }

  lemma HexIsFixed(text: string, bytes: Bytes)
    ensures IsHexOf(text, bytes) <==> text == Hex(bytes)
  {
    hide Hex;
    HexIsHex(bytes);
    if IsHexOf(text, bytes) {
      var hex := Hex(bytes);
      forall i | 0 <= i < |text| ensures text[i] == hex[i] {
        var j := i / 2;
        assert text[2 * j] == hex[2 * j] && text[2 * j + 1] == hex[2 * j + 1];
        assert i == 2 * j || i == 2 * j + 1;
      }
    }
  }

  lemma HashIs(digest: Digest, e: Entry)
    ensures e.entryHash == ComputeHash(digest, e) <==> IsHexOf(e.entryHash, digest(Preimage(e)))
  {
    hide Joined, Hex, IsHexOf, Preimage, FieldsOf;
    JoinedIsPreimage(e);
    HexIsFixed(e.entryHash, digest(Preimage(e)));
  }

  /** Every one of the entries passes. */
  ghost predicate AllPass(digest: Digest, chain: seq<Entry>) {
    forall i :: 0 <= i < |chain| ==> PassesAt(digest, chain, i)
  }

  lemma OneMorePasses(digest: Digest, front: seq<Entry>, e: Entry)
    ensures AllPass(digest, front + [e]) <==> AllPass(digest, front) && PassesAt(digest, front + [e], |front|)
  {
    hide IsHexOf, Preimage;
    var chain := front + [e];
    forall i | 0 <= i < |front| ensures PassesAt(digest, chain, i) <==> PassesAt(digest, front, i) {
      assert chain[i] == front[i] && (i > 0 ==> chain[i - 1] == front[i - 1]);
    }
  }

  lemma LastPasses(digest: Digest, front: seq<Entry>, e: Entry)
    requires AllPass(digest, front)
    ensures Follows(digest, Tip(front), e) <==> PassesAt(digest, front + [e], |front|)
  {
    hide IsHexOf, Preimage, ComputeHash;
    HashIs(digest, e);
    if front != [] { assert PassesAt(digest, front, |front| - 1); }
  }

  /** A chain is intact if and only if every entry passes. */
  lemma {:induction false} IntactMeans(digest: Digest, chain: seq<Entry>)
    ensures Intact(digest, chain) <==> AllPass(digest, chain)
    decreases |chain|
  {
    if chain != [] {
      hide Follows, PassesAt, AllPass;
      var front, e := chain[..|chain| - 1], chain[|chain| - 1];
      assert chain == front + [e];
      IntactMeans(digest, front);
      OneMorePasses(digest, front, e);
      if AllPass(digest, front) { LastPasses(digest, front, e); }
    } else {
      assert AllPass(digest, chain);
    }
  }

  lemma EmptyIsIntact(digest: Digest, entries: seq<Entry>)
    ensures Intact(digest, entries[..0]) && Tip(entries[..0]) == None
  {
  }

  /** The first entry that fails is the one at which the chain is no longer intact. */
  lemma FirstBadFails(digest: Digest, entries: seq<Entry>, i: nat)
    requires i < |entries| && Intact(digest, entries[..i])
    ensures forall j :: 0 <= j < i ==> PassesAt(digest, entries, j)
    ensures Intact(digest, entries[..i + 1]) <==> PassesAt(digest, entries, i)
  {
    hide Intact, IsHexOf, Preimage;
    var front, e := entries[..i], entries[i];
    assert entries[..i + 1] == front + [e];
    IntactMeans(digest, front);
    IntactMeans(digest, front + [e]);
    OneMorePasses(digest, front, e);
    forall j | 0 <= j < i ensures PassesAt(digest, entries, j) {
      assert PassesAt(digest, front, j);
    }
  }

  lemma OneMoreEntry(digest: Digest, entries: seq<Entry>, i: nat)
    requires i < |entries| && Intact(digest, entries[..i])
    ensures Intact(digest, entries[..i + 1]) <==> Follows(digest, Tip(entries[..i]), entries[i])
    ensures Tip(entries[..i + 1]) == Some(entries[i])
  {
    hide Follows;
    assert entries[..i + 1][..i] == entries[..i];
  }

  lemma {:induction false} BadStaysBad(digest: Digest, chain: seq<Entry>, k: nat)
    requires k <= |chain|
    ensures Intact(digest, chain) ==> Intact(digest, chain[..k])
    decreases |chain|
  {
    if k < |chain| {
      assert chain[..|chain| - 1][..k] == chain[..k];
      BadStaysBad(digest, chain[..|chain| - 1], k);
    } else {
      assert chain[..k] == chain;
    }
  }

  /** What is stored of a field: every character but the control characters, which U+FFFD stands
      for. */
  ghost predicate IsStored(text: string, stored: string) {
    |stored| == |text|
    && forall i :: 0 <= i < |text| ==> stored[i] == if text[i] as int < 32 then 0xFFFD as char else text[i]
  }

  /** The text the hash of an entry is taken of, field by field. */
  function Preimage(e: Entry): string {
    var sep := [31 as char];
    DigitsOf(e.number) + sep + (if e.at < 0 then "-" + DigitsOf(-e.at) else DigitsOf(e.at)) + sep + e.actor + sep
    + e.action + sep + e.subject + sep + e.detail + sep + e.prevHash
  }

  /** Two lower-case hex digits a byte. */
  ghost predicate IsHexOf(text: string, bytes: Bytes) {
    |text| == 2 * |bytes|
    && forall i :: 0 <= i < |bytes| ==>
         text[2 * i] == "0123456789abcdef"[bytes[i] as int / 16] && text[2 * i + 1] == "0123456789abcdef"[bytes[i] as int % 16]
  }

  /** An appended entry holds what it was given, counts on from the entry before and names its
      hash; its own hash is the hex of the digest of all that. */
  ghost predicate IsAppended(
    digest: Digest, prev: Option<Entry>, at: int, actor: string, action: string, subject: string, detail: string, e: Entry)
  {
    && e.at == at && IsStored(actor, e.actor) && IsStored(action, e.action) && IsStored(subject, e.subject)
    && IsStored(detail, e.detail)
    && (match prev
        case None => e.number == 0 && e.prevHash == ""
        case Some(before) => e.number == before.number + 1 && e.prevHash == before.entryHash)
    && IsHexOf(e.entryHash, digest(Preimage(e)))
  }

  lemma AppendedIs(
    digest: Digest, prev: Option<Entry>, at: int, actor: string, action: string, subject: string, detail: string)
    ensures IsAppended(digest, prev, at, actor, action, subject, detail,
              Append(digest, prev, at, actor, action, subject, detail))
  {
    hide Joined, Hex, IsHexOf, DigitsOf, Signed, Preimage;
    var e := Append(digest, prev, at, actor, action, subject, detail);
    JoinedIsPreimage(e);
    HexIsHex(digest(Preimage(e)));
  }

  lemma {:induction false} HexIsHex(bytes: Bytes)
    ensures IsHexOf(Hex(bytes), bytes)
  {
    if bytes != [] {
      var front, b := bytes[..|bytes| - 1], bytes[|bytes| - 1];
      hide Hex;
      HexIsHex(front);
      HexOneMore(front, b);
      assert bytes == front + [b];
      assert HexByte(b) == ["0123456789abcdef"[b as int / 16], "0123456789abcdef"[b as int % 16]];
    }
  }

  lemma HexOneMore(front: Bytes, b: byte)
    ensures Hex(front + [b]) == Hex(front) + HexByte(b)
  {
    assert (front + [b])[..|front|] == front;
  }

  lemma JoinedIsPreimage(e: Entry)
    ensures Joined(FieldsOf(e)) == Preimage(e)
  {
    hide DigitsOf, Joined;
    FourThenThree(e);
    TwoFields(e.subject, e.detail, e.prevHash);
    SevenGlued(DigitsOf(e.number), Signed(e.at), e.actor, e.action, e.subject, e.detail, e.prevHash, [31 as char]);
  }

  lemma SevenGlued(n: string, t: string, a: string, b: string, c: string, d: string, p: string, sep: string)
    ensures n + sep + (t + sep + (a + sep + (b + sep + (c + sep + (d + sep + p)))))
         == n + sep + t + sep + a + sep + b + sep + c + sep + d + sep + p
  {
    var x1, x2, x3 := d + sep + p, c + sep + (d + sep + p), b + sep + (c + sep + (d + sep + p));
    assert x2 == c + sep + d + sep + p;
    assert x3 == b + sep + c + sep + d + sep + p;
    assert a + sep + x3 == a + sep + b + sep + c + sep + d + sep + p;
    assert t + sep + (a + sep + x3) == t + sep + a + sep + b + sep + c + sep + d + sep + p;
  }

  /** Built by appending to nothing: what is checked, and no field holds a separator. */
  predicate Built(digest: Digest, chain: seq<Entry>) {
    chain == []
    || (var front, e := chain[..|chain| - 1], chain[|chain| - 1];
        Built(digest, front)
        && e == Append(digest, Tip(front), e.at, e.actor, e.action, e.subject, e.detail))
  }

  /** Appending keeps a built chain one, whatever the fields hold. */
  lemma AppendKeepsBuilt(
    digest: Digest, chain: seq<Entry>, at: int, actor: string, action: string, subject: string, detail: string)
    requires Built(digest, chain)
    ensures Built(digest, chain + [Append(digest, Tip(chain), at, actor, action, subject, detail)])
  {
    var e := Append(digest, Tip(chain), at, actor, action, subject, detail);
    assert (chain + [e])[..|chain|] == chain;
    SanitizedIsClean(actor);
    SanitizedIsClean(action);
    SanitizedIsClean(subject);
    SanitizedIsClean(detail);
  }

  /** A built chain verifies, and its entries hold no separator. */
  lemma {:induction false} BuiltIsIntact(digest: Digest, chain: seq<Entry>)
    requires Built(digest, chain)
    ensures Intact(digest, chain)
    ensures chain != [] ==> Separators(FieldsOf(chain[|chain| - 1])) == 0
    decreases |chain|
  {
    if chain != [] {
      hide Sanitized, Joined, Hex;
      var front := chain[..|chain| - 1];
      BuiltIsIntact(digest, front);
      var e := chain[|chain| - 1];
      HashHasNoSeparator(digest, front);
      SanitizedIsClean(e.actor);
      SanitizedIsClean(e.action);
      SanitizedIsClean(e.subject);
      SanitizedIsClean(e.detail);
      EntryHasNoSeparator(e);
    }
  }

  /** The hash of an entry that passed is hex. */
  lemma HashHasNoSeparator(digest: Digest, chain: seq<Entry>)
    requires Intact(digest, chain)
    ensures Count(if Tip(chain).Some? then Tip(chain).value.entryHash else "") == 0
  {
    if chain != [] { HexHasNoSeparator(digest(Joined(FieldsOf(chain[|chain| - 1])))); }
  }

  lemma EntryHasNoSeparator(e: Entry)
    requires Count(e.prevHash) == 0
    requires SEP !in e.actor && SEP !in e.action && SEP !in e.subject && SEP !in e.detail
    ensures Separators(FieldsOf(e)) == 0
  {
    hide DigitsOf, Signed, Count;
    SignedHasNoSeparator(e.number);
    SignedHasNoSeparator(e.at);
    SignedIsDigits(e.number);
    CountZero(e.actor);
    CountZero(e.action);
    CountZero(e.subject);
    CountZero(e.detail);
    SevenFields(FieldsOf(e));
  }

  lemma SignedIsDigits(n: nat)
    ensures Signed(n) == DigitsOf(n)
  {
  }

  lemma SevenFields(f: seq<string>)
    requires |f| == 7
    ensures Separators(f)
         == Count(f[0]) + Count(f[1]) + Count(f[2]) + Count(f[3]) + Count(f[4]) + Count(f[5]) + Count(f[6])
  {
    hide Count;
    assert f[1..][1..] == f[2..] && f[2..][1..] == f[3..] && f[3..][1..] == f[4..];
    assert f[4..][1..] == f[5..] && f[5..][1..] == f[6..] && f[6..][1..] == [];
    assert Separators(f[6..]) == Count(f[6]);
    assert Separators(f[5..]) == Count(f[5]) + Separators(f[6..]);
    assert Separators(f[4..]) == Count(f[4]) + Separators(f[5..]);
    assert Separators(f[3..]) == Count(f[3]) + Separators(f[4..]);
    assert Separators(f[2..]) == Count(f[2]) + Separators(f[3..]);
    assert Separators(f[1..]) == Count(f[1]) + Separators(f[2..]);
  }

  /** One entry: an equal hash means equal fields, when one of the two was appended. */
  lemma EqualHashEqualEntry(digest: Digest, a: Entry, b: Entry)
    requires Collisionless(digest) && Separators(FieldsOf(a)) == 0
    requires a.entryHash == ComputeHash(digest, a) == ComputeHash(digest, b) == b.entryHash
    ensures a == b
  {
    hide Joined, Hex, Separators, DigitsOf, Signed;
    HexIsInjective(digest(Joined(FieldsOf(a))), digest(Joined(FieldsOf(b))));
    JoinedIsUnique(FieldsOf(a), FieldsOf(b));
    var f, g := FieldsOf(a), FieldsOf(b);
    assert f[0] == g[0] && f[1] == g[1] && f[2] == g[2] && f[3] == g[3] && f[4] == g[4] && f[5] == g[5] && f[6] == g[6];
    SignedIsDigits(a.number);
    SignedIsDigits(b.number);
    SignedIsInjective(a.number, b.number);
    SignedIsInjective(a.at, b.at);
  }

  function TipHash(chain: seq<Entry>): string {
    if chain == [] then "" else chain[|chain| - 1].entryHash
  }

  /** Tamper evidence: a chain that verifies and has the tip hash of a chain that was
      appended is that chain, entry for entry, whatever its fields hold. */
  lemma {:induction false} EqualTipEqualChain(digest: Digest, built: seq<Entry>, other: seq<Entry>)
    requires Collisionless(digest) && Built(digest, built) && Intact(digest, other)
    requires TipHash(built) == TipHash(other)
    ensures built == other
    decreases |built|
  {
    hide Collisionless, Built, Intact, Sanitized, Follows, ComputeHash;
    BuiltIsIntact(digest, built);
    TipIsNotEmpty(digest, built);
    TipIsNotEmpty(digest, other);
    if built != [] {
      LastFollows(digest, built);
      LastFollows(digest, other);
      FrontIsBuilt(digest, built);
      SameLast(digest, built, other);
      EqualTipEqualChain(digest, built[..|built| - 1], other[..|other| - 1]);
      assert built == built[..|built| - 1] + [built[|built| - 1]];
      assert other == other[..|other| - 1] + [other[|other| - 1]];
    }
  }

  lemma LastFollows(digest: Digest, chain: seq<Entry>)
    requires Intact(digest, chain) && chain != []
    ensures Intact(digest, chain[..|chain| - 1])
    ensures Follows(digest, Tip(chain[..|chain| - 1]), chain[|chain| - 1])
  {
  }

  lemma FrontIsBuilt(digest: Digest, chain: seq<Entry>)
    ensures Built(digest, chain) && chain != [] ==> Built(digest, chain[..|chain| - 1])
  {
  }

  /** Equal tips: the last entries are one, and so are the tips before them. */
  lemma SameLast(digest: Digest, built: seq<Entry>, other: seq<Entry>)
    requires Collisionless(digest) && built != [] && other != [] && TipHash(built) == TipHash(other)
    requires Separators(FieldsOf(built[|built| - 1])) == 0
    requires Follows(digest, Tip(built[..|built| - 1]), built[|built| - 1])
    requires Follows(digest, Tip(other[..|other| - 1]), other[|other| - 1])
    ensures built[|built| - 1] == other[|other| - 1]
    ensures TipHash(built[..|built| - 1]) == TipHash(other[..|other| - 1])
  {
    hide Collisionless, Separators, ComputeHash, FieldsOf;
    EqualHashEqualEntry(digest, built[|built| - 1], other[|other| - 1]);
  }

  lemma TipIsNotEmpty(digest: Digest, chain: seq<Entry>)
    ensures Collisionless(digest) && Intact(digest, chain) ==> (chain == [] <==> TipHash(chain) == "")
  {
  }

  /** What sanitizing is for: without it two different tuples have one pre-image. */
  lemma UnsanitizedFieldsCollide(e: Entry)
    ensures var f, g := e.(subject := "run" + [SEP] + "X", detail := "Y"), e.(subject := "run", detail := "X" + [SEP] + "Y");
            f != g && Joined(FieldsOf(f)) == Joined(FieldsOf(g))
  {
    hide DigitsOf, Signed;
    var p := e.prevHash;
    TwoFields("run" + [SEP] + "X", "Y", p);
    TwoFields("run", "X" + [SEP] + "Y", p);
    assert "run" + [SEP] + "X" + [SEP] + ("Y" + [SEP] + p) == "run" + [SEP] + ("X" + [SEP] + "Y" + [SEP] + p);
    FourThenThree(e.(subject := "run" + [SEP] + "X", detail := "Y"));
    FourThenThree(e.(subject := "run", detail := "X" + [SEP] + "Y"));
  }

  lemma TwoFields(s: string, d: string, p: string)
    ensures Joined([s, d, p]) == s + [SEP] + (d + [SEP] + p)
  {
    assert [s, d, p][1..] == [d, p] && [d, p][1..] == [p];
    assert Joined([p]) == p;
    assert Joined([d, p]) == d + [SEP] + p;
  }

  lemma FourThenThree(e: Entry)
    ensures Joined(FieldsOf(e))
         == DigitsOf(e.number) + [SEP] + (Signed(e.at) + [SEP] + (e.actor + [SEP] + (e.action + [SEP]
              + Joined([e.subject, e.detail, e.prevHash]))))
  {
    hide DigitsOf, Signed;
    var f := FieldsOf(e);
    assert f[1..][1..] == f[2..] && f[2..][1..] == f[3..] && f[3..][1..] == f[4..];
    assert f[4..] == [e.subject, e.detail, e.prevHash];
    assert Joined(f[3..]) == f[3] + [SEP] + Joined(f[4..]);
    assert Joined(f[2..]) == f[2] + [SEP] + Joined(f[3..]);
    assert Joined(f[1..]) == f[1] + [SEP] + Joined(f[2..]);
  }

  // ---------------------------------------------------------------- the manifest

  datatype ChainTip = ChainTip(number: nat, hash: string, count: nat)

  function TipOf(chain: seq<Entry>): ChainTip {
    if chain == [] then ChainTip(0, "", 0)
    else ChainTip(chain[|chain| - 1].number, chain[|chain| - 1].entryHash, |chain|)
  }

  function SigningText(org: string, tip: ChainTip, signedAt: int): string {
    Joined([org, DigitsOf(tip.number), tip.hash, DigitsOf(tip.count), Signed(signedAt)])
  }

  /** The text that is signed: the org, the tip's number and hash, how many entries there are, and
      the time. */
  function ManifestText(org: string, chain: seq<Entry>, signedAt: int): string {
    var sep := [31 as char];
    var time := if signedAt < 0 then "-" + DigitsOf(-signedAt) else DigitsOf(signedAt);
    if chain == [] then org + sep + "0" + sep + sep + "0" + sep + time
    else
      var tip := chain[|chain| - 1];
      org + sep + DigitsOf(tip.number) + sep + tip.entryHash + sep + DigitsOf(|chain|) + sep + time
  }

  lemma SigningTextIs(org: string, chain: seq<Entry>, signedAt: int)
    ensures SigningText(org, TipOf(chain), signedAt) == ManifestText(org, chain, signedAt)
  {
    SigningTextFromTheRight(org, TipOf(chain), signedAt);
    hide SigningText;
    assert DigitsOf(0) == "0";
    if chain == [] {
      var sep, time := [31 as char], Signed(signedAt);
      assert org + sep + "0" + sep + "" + sep + "0" + sep + time == org + sep + "0" + sep + sep + "0" + sep + time;
    }
  }

  lemma LastFieldIsUnique(x: string, y: string, x': string, y': string)
    requires Count(y) == 0 && Count(y') == 0
    requires x + [SEP] + y == x' + [SEP] + y'
    ensures x == x' && y == y'
  {
    NoSeparatorAfter(x, y, x', y');
    NoSeparatorAfter(x', y', x, y);
    var s := x + [SEP] + y;
    assert x == s[..|x|] == x';
    assert y == s[|x| + 1..] == y';
  }

  lemma NoSeparatorAfter(x: string, y: string, x': string, y': string)
    requires Count(y') == 0 && x + [SEP] + y == x' + [SEP] + y'
    ensures |x| <= |x'|
  {
    hide Count;
    CountZero(y');
    assert (x + [SEP] + y)[|x|] == SEP;
    assert forall i :: |x'| < i < |x'| + 1 + |y'| ==> (x' + [SEP] + y')[i] == y'[i - |x'| - 1];
  }

  lemma SigningTextFromTheRight(org: string, tip: ChainTip, signedAt: int)
    ensures SigningText(org, tip, signedAt)
         == org + [SEP] + DigitsOf(tip.number) + [SEP] + tip.hash + [SEP] + DigitsOf(tip.count) + [SEP] + Signed(signedAt)
  {
    hide DigitsOf, Signed;
    var n, h, c, t := DigitsOf(tip.number), tip.hash, DigitsOf(tip.count), Signed(signedAt);
    assert [org, n, h, c, t][1..] == [n, h, c, t] && [n, h, c, t][1..] == [h, c, t];
    TwoFields(h, c, t);
    assert Joined([n, h, c, t]) == n + [SEP] + Joined([h, c, t]);
    assert Joined([org, n, h, c, t]) == org + [SEP] + Joined([n, h, c, t]);
    assert org + [SEP] + (n + [SEP] + (h + [SEP] + (c + [SEP] + t)))
        == org + [SEP] + n + [SEP] + h + [SEP] + c + [SEP] + t;
  }

  /** The signed text of a tip whose hash is hex is that of no other manifest, read from the
      right and even when the org's name holds the separator, if and only if the other's
      hash holds none. */
  lemma ManifestReadsFromTheRight(
    org: string, tip: ChainTip, signedAt: int, org': string, tip': ChainTip, signedAt': int)
    requires SEP !in tip.hash
    requires SigningText(org, tip, signedAt) == SigningText(org', tip', signedAt')
    ensures signedAt == signedAt' && tip.count == tip'.count
    ensures org == org' && tip == tip' <==> SEP !in tip'.hash
  {
    hide DigitsOf, Signed, SigningText, Joined, Count;
    SigningTextFromTheRight(org, tip, signedAt);
    SigningTextFromTheRight(org', tip', signedAt');
    NumbersHaveNoSeparator(tip, signedAt);
    NumbersHaveNoSeparator(tip', signedAt');
    var r3 := org + [SEP] + DigitsOf(tip.number) + [SEP] + tip.hash + [SEP] + DigitsOf(tip.count);
    var r3' := org' + [SEP] + DigitsOf(tip'.number) + [SEP] + tip'.hash + [SEP] + DigitsOf(tip'.count);
    LastFieldIsUnique(r3, Signed(signedAt), r3', Signed(signedAt'));
    SignedIsInjective(signedAt, signedAt');
    var r2 := org + [SEP] + DigitsOf(tip.number) + [SEP] + tip.hash;
    var r2' := org' + [SEP] + DigitsOf(tip'.number) + [SEP] + tip'.hash;
    LastFieldIsUnique(r2, DigitsOf(tip.count), r2', DigitsOf(tip'.count));
    SignedIsDigits(tip.count);
    SignedIsDigits(tip'.count);
    SignedIsInjective(tip.count, tip'.count);
    if SEP !in tip'.hash {
      CountZero(tip.hash);
      CountZero(tip'.hash);
      LastFieldIsUnique(org + [SEP] + DigitsOf(tip.number), tip.hash, org' + [SEP] + DigitsOf(tip'.number), tip'.hash);
      LastFieldIsUnique(org, DigitsOf(tip.number), org', DigitsOf(tip'.number));
      SignedIsDigits(tip.number);
      SignedIsDigits(tip'.number);
      SignedIsInjective(tip.number, tip'.number);
    }
  }

  lemma NumbersHaveNoSeparator(tip: ChainTip, signedAt: int)
    ensures Count(DigitsOf(tip.number)) == 0 && Count(DigitsOf(tip.count)) == 0 && Count(Signed(signedAt)) == 0
  {
    hide Count;
    SignedHasNoSeparator(tip.number);
    SignedHasNoSeparator(tip.count);
    SignedHasNoSeparator(signedAt);
  }

  /** A hash with a separator in it, which no entry has, makes two manifests sign alike. */
  lemma ForgedHashSignsAlike()
    ensures var a, b := ChainTip(1, "2" + [SEP] + "x", 0), ChainTip(2, "x", 0);
            a != b && SigningText("a", a, 0) == SigningText("a" + [SEP] + "1", b, 0)
  {
    SigningTextFromTheRight("a", ChainTip(1, "2" + [SEP] + "x", 0), 0);
    SigningTextFromTheRight("a" + [SEP] + "1", ChainTip(2, "x", 0), 0);
    assert DigitsOf(1) == "1" && DigitsOf(2) == "2";
    assert "a" + [SEP] + "1" + [SEP] + ("2" + [SEP] + "x") == "a" + [SEP] + "1" + [SEP] + "2" + [SEP] + "x";
  }

  /** What one signature covers: the org, the whole chain and the time. A chain that
      verifies and signs alike under any org name is the one that was signed. */
  lemma SignedManifestFixesTheChain(
    digest: Digest, org: string, built: seq<Entry>, signedAt: int, org': string, other: seq<Entry>, signedAt': int)
    requires Collisionless(digest) && Built(digest, built) && Intact(digest, other)
    requires SigningText(org, TipOf(built), signedAt) == SigningText(org', TipOf(other), signedAt')
    ensures org == org' && built == other && signedAt == signedAt'
  {
    hide Collisionless, Built, Intact, SigningText, Count;
    BuiltIsIntact(digest, built);
    HashHasNoSeparator(digest, built);
    HashHasNoSeparator(digest, other);
    CountZero(TipOf(built).hash);
    CountZero(TipOf(other).hash);
    ManifestReadsFromTheRight(org, TipOf(built), signedAt, org', TipOf(other), signedAt');
    EqualTipEqualChain(digest, built, other);
  }
}
