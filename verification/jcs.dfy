/** RFC 8785 canonical serialization (crates/core/src/jcs.rs).

    `Canon` is the text `canonicalize` prints. `ReadValue` is a reader for such texts.
    Printing and reading back gives the same value, with the members of each object in
    key order; so two values print alike exactly when they are the same value. */
module Jcs {
  import opened Wrappers
  import opened Numbers

  type FloatSpelling = sp: Spelling | sp.Valid() witness Spelling(false, "0", "0", 0)
  // The integers a serde_json number holds: i64 or u64.
  type WholeNumber = i: int | -0x8000_0000_0000_0000 <= i <= 0xFFFF_FFFF_FFFF_FFFF

  datatype Number = Whole(i: WholeNumber) | Float(sp: FloatSpelling) {
    function Denoted(): Decimal {
      match this
      case Whole(i) => Decimal(i < 0, if i < 0 then -i else i, 0)
      case Float(sp) => sp.Denoted()
    }
  }

  datatype Json =
    | Null
    | Bool(b: bool)
    | Num(n: Number)
    | Str(s: string)
    | Arr(items: seq<Json>)
    | Obj(members: seq<Member>)

  datatype Member = Member(key: string, value: Json)

  // ------------------------------------------------------------------- strings

  function HexChar(d: nat): char
    requires d < 16
  {
    if d < 10 then '0' + d as char else 'a' + (d - 10) as char
  }

  function HexValue(c: char): Option<nat> {
    if '0' <= c <= '9' then Some(c as int - '0' as int)
    else if 'a' <= c <= 'f' then Some(c as int - 'a' as int + 10)
    else None
  }

  function Escape(c: char): (r: string)
    ensures r != ""
  {
    var v := c as int;
    if c == '\"' then "\\\""
    else if c == '\\' then "\\\\"
    else if v == 8 then "\\b"
    else if v == 9 then "\\t"
    else if v == 10 then "\\n"
    else if v == 12 then "\\f"
    else if v == 13 then "\\r"
    else if v < 0x20 then "\\u00" + [HexChar(v / 16), HexChar(v % 16)]
    else [c]
  }

  function EscapeAll(s: string): string {
    if s == "" then "" else Escape(s[0]) + EscapeAll(s[1..])
  }

  function Quote(s: string): string {
    "\"" + (EscapeAll(s) + "\"")
  }

  function Unescape(c: char): Option<char> {
    if c == '\"' then Some('\"')
    else if c == '\\' then Some('\\')
    else if c == 'b' then Some(8 as char)
    else if c == 't' then Some(9 as char)
    else if c == 'n' then Some(10 as char)
    else if c == 'f' then Some(12 as char)
    else if c == 'r' then Some(13 as char)
    else None
  }

  /** Reads one possibly escaped character. */
  function ReadChar(t: string): (r: Parsed<char>)
    ensures r.Got? ==> |r.rest| < |t|
  {
    if t == "" then Fail
    else if t[0] != '\\' then Got(t[0], t[1..])
    else if |t| < 2 then Fail
    else if t[1] != 'u' then
      (match Unescape(t[1]) case Some(c) => Got(c, t[2..]) case None => Fail)
    else if |t| < 6 || t[2] != '0' || t[3] != '0' then Fail
    else
      (match (HexValue(t[4]), HexValue(t[5]))
       case (Some(a), Some(b)) => Got((a * 16 + b) as char, t[6..])
       case _ => Fail)
  }

  /** Reads the characters of a string up to its closing quote. */
  function ReadChars(t: string): (r: Parsed<string>)
    ensures r.Got? ==> |r.rest| < |t|
    decreases |t|
  {
    if t != "" && t[0] == '\"' then Got("", t[1..])
    else
      match ReadChar(t)
      case Fail => Fail
      case Got(c, rest) =>
        match ReadChars(rest)
        case Fail => Fail
        case Got(s, left) => Got([c] + s, left)
  }

  lemma HexReadsBack(d: nat)
    ensures d < 16 ==> HexValue(HexChar(d)) == Some(d)
  {
  }

  lemma CharReadsBack(c: char, rest: string)
    ensures Escape(c)[0] != '\"' && ReadChar(Escape(c) + rest) == Got(c, rest)
  {
    var v, t := c as int, Escape(c) + rest;
    if |Escape(c)| == 6 {
      HexReadsBack(v / 16);
      HexReadsBack(v % 16);
      assert t[6..] == rest;
    } else if |Escape(c)| == 2 {
      assert t[2..] == rest;
    } else {
      assert t[1..] == rest;
    }
  }

  /** The short escapes, as the source's library has them. */
  function ShortEscape(c: char): string {
    match c as int
    case 0x22 => "\""
    case 0x5C => "\\"
    case 0x08 => "b"
    case 0x09 => "t"
    case 0x0A => "n"
    case 0x0C => "f"
    case 0x0D => "r"
    case _ => ""
  }

  /** Only quotes, backslashes and control characters are escaped: in the short form where there
      is one, and otherwise in lower-case hex. */
  lemma EscapesAreShortest(c: char)
    ensures Escape(c) == [c] <==> c as int >= 0x20 && c != '\"' && c != '\\'
    ensures |Escape(c)| == 2 <==> ShortEscape(c) != ""
    ensures ShortEscape(c) != "" ==> Escape(c)[0] == '\\' && Escape(c)[1..] == ShortEscape(c)
    ensures |Escape(c)| > 2 ==>
              && |Escape(c)| == 6 && Escape(c)[..4] == "\\u00"
              && HexValue(Escape(c)[4]).Some? && HexValue(Escape(c)[5]).Some?
              && HexValue(Escape(c)[4]).value * 16 + HexValue(Escape(c)[5]).value == c as int
  {
  }

  lemma EscapesFirst(s: string, tail: string)
    requires s != ""
    ensures var t := EscapeAll(s) + tail;
            t == Escape(s[0]) + (EscapeAll(s[1..]) + tail) && t[0] == Escape(s[0])[0]
  {
    hide Escape;
    var e, more := Escape(s[0]), EscapeAll(s[1..]);
    Glue(e, more, tail);
    assert (e + (more + tail))[0] == e[0];
  }

  /** Escaping is undone by reading, for every string. */
  lemma {:induction false} StringReadsBack(s: string, rest: string)
    ensures ReadChars(EscapeAll(s) + ("\"" + rest)) == Got(s, rest)
  {
    var tail := "\"" + rest;
    if s == "" {
      assert EscapeAll(s) + tail == tail;
    } else {
      StringReadsBack(s[1..], rest);
      hide Escape, ReadChar;
      CharReadsBack(s[0], EscapeAll(s[1..]) + tail);
      EscapesFirst(s, tail);
      assert [s[0]] + s[1..] == s;
    }
  }

  // ----------------------------------------------------------------- key order

  /** The UTF-16 code units of a character. */
  function Units(c: char): (u: seq<nat>)
    ensures |u| == 1 || |u| == 2
  {
    var v := c as int;
    if v < 0x10000 then [v]
    else [0xD800 + (v - 0x10000) / 0x400, 0xDC00 + (v - 0x10000) % 0x400]
  }

  function Utf16(s: string): seq<nat> {
    if s == "" then [] else Units(s[0]) + Utf16(s[1..])
  }

  /** Lexicographic order of code units. */
  predicate Below(a: seq<nat>, b: seq<nat>) {
    b != [] && (a == [] || a[0] < b[0] || (a[0] == b[0] && Below(a[1..], b[1..])))
  }

  predicate KeyBefore(a: string, b: string) { Below(Utf16(a), Utf16(b)) }

  lemma {:induction false} BelowIsStrictOrder(a: seq<nat>, b: seq<nat>, c: seq<nat>)
    ensures !Below(a, a)
    ensures Below(a, b) && Below(b, c) ==> Below(a, c)
    ensures Below(a, b) || Below(b, a) || a == b
    ensures !(Below(a, b) && Below(b, a))
  {
    if a != [] && b != [] {
      BelowIsStrictOrder(a[1..], b[1..], if c == [] then [] else c[1..]);
      if a[0] == b[0] && a[1..] == b[1..] {
        assert a == [a[0]] + a[1..] && b == [b[0]] + b[1..];
      }
    } else if a != [] {
      BelowIsStrictOrder(a[1..], [], []);
    }
  }

  lemma UnitsAreInjective(a: char, b: char, x: seq<nat>, y: seq<nat>)
    requires Units(a) + x == Units(b) + y
    ensures a == b && x == y
  {
    var u, w := Units(a) + x, Units(b) + y;
    assert u[0] == w[0];
    assert |Units(a)| == |Units(b)|;
    if |Units(a)| == 2 {
      assert u[1] == w[1];
      assert a as int == b as int;
    }
    assert x == u[|Units(a)|..] && y == w[|Units(b)|..];
  }

  /** Surrogate pairs keep the encoding injective, since no character is a surrogate. */
  lemma {:induction false} Utf16IsInjective(a: string, b: string)
    requires Utf16(a) == Utf16(b)
    ensures a == b
  {
    if a != "" && b != "" {
      UnitsAreInjective(a[0], b[0], Utf16(a[1..]), Utf16(b[1..]));
      Utf16IsInjective(a[1..], b[1..]);
      assert a == [a[0]] + a[1..] && b == [b[0]] + b[1..];
    }
  }

  /** So key order is a strict total order on all strings. */
  lemma KeyOrderIsTotal(a: string, b: string, c: string)
    ensures !KeyBefore(a, a)
    ensures KeyBefore(a, b) && KeyBefore(b, c) ==> KeyBefore(a, c)
    ensures KeyBefore(a, b) || KeyBefore(b, a) || a == b
    ensures !(KeyBefore(a, b) && KeyBefore(b, a))
  {
    BelowIsStrictOrder(Utf16(a), Utf16(b), Utf16(c));
    if Utf16(a) == Utf16(b) { Utf16IsInjective(a, b); }
  }

  /** The first unit in which they differ is less, or the one ends where the other goes on. */
  ghost predicate ComesBefore(a: seq<nat>, b: seq<nat>) {
    exists i :: 0 <= i <= |a| && i <= |b| && a[..i] == b[..i]
      && (if i < |a| && i < |b| then a[i] < b[i] else i == |a| < |b|)
  }

  lemma SameFirst(a: seq<nat>, b: seq<nat>, i: nat)
    requires i <= |a| && i <= |b| && a[..i] == b[..i]
    ensures i > 0 ==> a[0] == b[0]
  {
    if i > 0 { assert a[0] == a[..i][0] && b[0] == b[..i][0]; }
  }

  /** Key order is that of the first UTF-16 code unit that differs, a beginning first. */
  lemma {:induction false} BelowIsLexicographic(a: seq<nat>, b: seq<nat>)
    ensures Below(a, b) <==> ComesBefore(a, b)
  {
    if a == [] || b == [] || a[0] != b[0] {
      if Below(a, b) { assert a[..0] == b[..0]; }
      if ComesBefore(a, b) {
        var i :| 0 <= i <= |a| && i <= |b| && a[..i] == b[..i]
          && (if i < |a| && i < |b| then a[i] < b[i] else i == |a| < |b|);
        SameFirst(a, b, i);
      }
    } else {
      BelowIsLexicographic(a[1..], b[1..]);
      if ComesBefore(a[1..], b[1..]) {
        var i :| 0 <= i <= |a[1..]| && i <= |b[1..]| && a[1..][..i] == b[1..][..i]
          && (if i < |a[1..]| && i < |b[1..]| then a[1..][i] < b[1..][i] else i == |a[1..]| < |b[1..]|);
        assert a[..i + 1] == [a[0]] + a[1..][..i] && b[..i + 1] == [b[0]] + b[1..][..i];
      }
      if ComesBefore(a, b) {
        var i :| 0 <= i <= |a| && i <= |b| && a[..i] == b[..i]
          && (if i < |a| && i < |b| then a[i] < b[i] else i == |a| < |b|);
        assert i > 0;
        assert a[1..][..i - 1] == a[..i][1..] && b[1..][..i - 1] == b[..i][1..];
      }
    }
  }

  /** A character beyond the first plane is a high and a low surrogate, ten bits in each. */
  lemma UnitsAreUtf16(c: char)
    ensures if c as int < 0x10000 then Units(c) == [c as int]
            else
              && |Units(c)| == 2 && 0xD800 <= Units(c)[0] < 0xDC00 <= Units(c)[1] < 0xE000
              && c as int == 0x10000 + (Units(c)[0] - 0xD800) * 0x400 + (Units(c)[1] - 0xDC00)
  {
  }

  lemma KeyOrderIsByUnits(a: string, b: string)
    ensures KeyBefore(a, b) <==> ComesBefore(Utf16(a), Utf16(b))
  {
    BelowIsLexicographic(Utf16(a), Utf16(b));
  }

  // The sort of the keys.

  function InsertKey(k: string, sorted: seq<string>): seq<string> {
    if sorted == [] || !KeyBefore(sorted[0], k) then [k] + sorted
    else [sorted[0]] + InsertKey(k, sorted[1..])
  }

  function SortKeys(keys: seq<string>): seq<string> {
    if keys == [] then [] else InsertKey(keys[0], SortKeys(keys[1..]))
  }

  ghost predicate KeysRise(keys: seq<string>) {
    forall i, j :: 0 <= i < j < |keys| ==> KeyBefore(keys[i], keys[j])
  }

  predicate KeysDiffer(keys: seq<string>) {
    forall i, j :: 0 <= i < j < |keys| ==> keys[i] != keys[j]
  }

  lemma {:induction false} InsertKeySame(k: string, sorted: seq<string>)
    ensures forall x :: x in InsertKey(k, sorted) <==> x == k || x in sorted
  {
    if sorted != [] && KeyBefore(sorted[0], k) {
      InsertKeySame(k, sorted[1..]);
      assert sorted == [sorted[0]] + sorted[1..];
    }
  }

  lemma {:induction false} InsertKeyRises(k: string, sorted: seq<string>)
    requires KeysRise(sorted) && k !in sorted
    ensures KeysRise(InsertKey(k, sorted))
  {
    hide KeyBefore;
    if sorted == [] {
    } else if KeyBefore(sorted[0], k) {
      InsertKeyRises(k, sorted[1..]);
      InsertKeySame(k, sorted[1..]);
      var rest := InsertKey(k, sorted[1..]);
      forall j | 0 <= j < |rest| ensures KeyBefore(sorted[0], rest[j]) {
        assert rest[j] in rest;
      }
    } else {
      KeyOrderIsTotal(k, sorted[0], k);
      forall j | 0 <= j < |sorted| ensures KeyBefore(k, sorted[j]) {
        KeyOrderIsTotal(k, sorted[0], sorted[j]);
      }
    }
  }

  lemma {:induction false} SortKeysRises(keys: seq<string>)
    ensures forall x :: x in SortKeys(keys) <==> x in keys
    ensures KeysDiffer(keys) ==> KeysRise(SortKeys(keys))
  {
    if keys != [] {
      SortKeysRises(keys[1..]);
      InsertKeySame(keys[0], SortKeys(keys[1..]));
      assert keys == [keys[0]] + keys[1..];
      if KeysDiffer(keys) {
        assert keys[0] !in keys[1..];
        InsertKeyRises(keys[0], SortKeys(keys[1..]));
      }
    }
  }

  lemma HasMember(a: seq<string>)
    ensures a != [] ==> exists x :: x in a
  {
    if a != [] { assert a[0] in a; }
  }

  lemma OnlyOnce(a: seq<string>, x: string)
    requires KeysRise(a) && a != []
    ensures x in a[1..] <==> x in a && x != a[0]
  {
    if x in a[1..] {
      var i :| 0 <= i < |a[1..]| && a[1..][i] == x;
      assert KeyBefore(a[0], a[i + 1]);
      KeyOrderIsTotal(x, x, x);
    }
  }

  /** A rising list is fixed by its keys: there is one order to print them in. */
  lemma {:induction false} RisingIsUnique(a: seq<string>, b: seq<string>)
    requires KeysRise(a) && KeysRise(b)
    requires forall x :: x in a <==> x in b
    ensures a == b
  {
    hide KeyBefore;
    HasMember(a);
    HasMember(b);
    if a != [] {
      assert a[0] in b && b[0] in a;
      KeyOrderIsTotal(a[0], b[0], a[0]);
      assert a[0] == b[0];
      forall x ensures x in a[1..] <==> x in b[1..] {
        OnlyOnce(a, x);
        OnlyOnce(b, x);
      }
      RisingIsUnique(a[1..], b[1..]);
      assert a == [a[0]] + a[1..] && b == [b[0]] + b[1..];
    }
  }

  // ------------------------------------------------------------------ printing

  function KeysOf(ms: seq<Member>): seq<string> {
    if ms == [] then [] else [ms[0].key] + KeysOf(ms[1..])
  }

  function WholeText(i: WholeNumber): string {
    if i < 0 then "-" + DigitsOf(-i) else DigitsOf(i)
  }

  function NumberText(n: Number): string {
    match n
    case Whole(i) => WholeText(i)
    case Float(sp) => EsNumber(sp)
  }

  function Canon(v: Json): string
    decreases v, 1
  {
    match v
    case Null => "null"
    case Bool(b) => if b then "true" else "false"
    case Num(n) => NumberText(n)
    case Str(s) => Quote(s)
    case Arr(items) => "[" + (ItemsText(items) + "]")
    case Obj(ms) => "{" + (MembersText(SortKeys(KeysOf(ms)), Texts(ms)) + "}")
  }

  function ItemsText(items: seq<Json>): string
    decreases items, 0
  {
    if items == [] then "" else Canon(items[0]) + TailText(items[1..])
  }

  function TailText(items: seq<Json>): string
    decreases items, 0
  {
    if items == [] then "" else "," + (Canon(items[0]) + TailText(items[1..]))
  }

  /** Each member's printed value, by its key. */
  function Texts(ms: seq<Member>): map<string, string>
    decreases ms, 0
  {
    if ms == [] then map[] else Texts(ms[1..])[ms[0].key := Canon(ms[0].value)]
  }

  function MembersText(keys: seq<string>, texts: map<string, string>): string {
    if keys == [] then "" else MemberText(keys[0], texts) + MembersTail(keys[1..], texts)
  }

  function MembersTail(keys: seq<string>, texts: map<string, string>): string {
    if keys == [] then "" else "," + (MemberText(keys[0], texts) + MembersTail(keys[1..], texts))
  }

  function MemberText(key: string, texts: map<string, string>): string {
    Quote(key) + (":" + if key in texts then texts[key] else "")
  }

  /** An object's members are printed by their keys, each once, in the order of UTF-16. */
  lemma MembersAreInOrder(ms: seq<Member>) returns (keys: seq<string>)
    requires KeysDiffer(KeysOf(ms))
    ensures Canon(Obj(ms)) == "{" + (MembersText(keys, Texts(ms)) + "}")
    ensures forall x :: x in keys <==> x in KeysOf(ms)
    ensures forall i, j :: 0 <= i < j < |keys| ==> ComesBefore(Utf16(keys[i]), Utf16(keys[j]))
  {
    hide Utf16, Below, ComesBefore, MembersText, Texts;
    keys := SortKeys(KeysOf(ms));
    SortKeysRises(KeysOf(ms));
    forall i, j | 0 <= i < j < |keys| ensures ComesBefore(Utf16(keys[i]), Utf16(keys[j])) {
      KeyOrderIsByUnits(keys[i], keys[j]);
      assert KeyBefore(keys[i], keys[j]);
    }
  }

  /** No object holds one key twice. */
  ghost predicate WellFormed(v: Json)
    decreases v, 1
  {
    match v
    case Arr(items) => forall i :: 0 <= i < |items| ==> WellFormed(items[i])
    case Obj(ms) => KeysDiffer(KeysOf(ms)) && forall i :: 0 <= i < |ms| ==> WellFormed(ms[i].value)
    case _ => true
  }

  // ------------------------------------------------------------------- reading

  /** A JSON value as such: numbers are numbers, objects are maps. */
  datatype Value =
    | NullValue
    | BoolValue(b: bool)
    | NumValue(d: Decimal)
    | StrValue(s: string)
    | ArrValue(items: seq<Value>)
    | ObjValue(members: map<string, Value>)

  function Meaning(v: Json): Value
    decreases v, 1
  {
    match v
    case Null => NullValue
    case Bool(b) => BoolValue(b)
    case Num(n) => NumValue(Normal(n.Denoted()))
    case Str(s) => StrValue(s)
    case Arr(items) => ArrValue(Meanings(items))
    case Obj(ms) => ObjValue(Bindings(ms))
  }

  function Meanings(items: seq<Json>): (r: seq<Value>)
    ensures |r| == |items|
    decreases items, 0
  {
    if items == [] then [] else [Meaning(items[0])] + Meanings(items[1..])
  }

  function Bindings(ms: seq<Member>): map<string, Value>
    decreases ms, 0
  {
    if ms == [] then map[] else Bindings(ms[1..])[ms[0].key := Meaning(ms[0].value)]
  }

  /** Reads one JSON value at the front of a canonical text. */
  function ReadValue(t: string): (r: Parsed<Value>)
    ensures r.Got? ==> |r.rest| < |t|
    decreases |t|, 1
  {
    if t == "" then Fail
    else if t[0] == 'n' then (if "null" <= t then Got(NullValue, t[4..]) else Fail)
    else if t[0] == 't' then (if "true" <= t then Got(BoolValue(true), t[4..]) else Fail)
    else if t[0] == 'f' then (if "false" <= t then Got(BoolValue(false), t[5..]) else Fail)
    else if t[0] == '\"' then
      (match ReadChars(t[1..]) case Got(s, rest) => Got(StrValue(s), rest) case Fail => Fail)
    else if t[0] == '[' then
      (match ReadItems(t[1..]) case Got(items, rest) => Got(ArrValue(items), rest) case Fail => Fail)
    else if t[0] == '{' then
      (match ReadMembers(t[1..]) case Got(m, rest) => Got(ObjValue(m), rest) case Fail => Fail)
    else
      match ReadNumber(t)
      case Got(d, rest) => if |rest| < |t| then Got(NumValue(d), rest) else Fail
      case Fail => Fail
  }

  function ReadItems(t: string): (r: Parsed<seq<Value>>)
    ensures r.Got? ==> |r.rest| < |t|
    decreases |t|, 2
  {
    if t != "" && t[0] == ']' then Got([], t[1..])
    else
      match ReadValue(t)
      case Fail => Fail
      case Got(v, rest) =>
        match ReadTail(rest)
        case Fail => Fail
        case Got(vs, left) => Got([v] + vs, left)
  }

  function ReadTail(t: string): (r: Parsed<seq<Value>>)
    ensures r.Got? ==> |r.rest| < |t|
    decreases |t|, 0
  {
    if t == "" then Fail
    else if t[0] == ']' then Got([], t[1..])
    else if t[0] != ',' then Fail
    else
      match ReadValue(t[1..])
      case Fail => Fail
      case Got(v, rest) =>
        match ReadTail(rest)
        case Fail => Fail
        case Got(vs, left) => Got([v] + vs, left)
  }

  /** A quoted key, a colon and a value. */
  function ReadMember(t: string): (r: Parsed<(string, Value)>)
    ensures r.Got? ==> |r.rest| < |t|
    decreases |t|, 2
  {
    if t == "" || t[0] != '\"' then Fail
    else
      match ReadChars(t[1..])
      case Fail => Fail
      case Got(key, rest) =>
        if rest == "" || rest[0] != ':' then Fail
        else
          match ReadValue(rest[1..])
          case Fail => Fail
          case Got(v, left) => Got((key, v), left)
  }

  function ReadMembers(t: string): (r: Parsed<map<string, Value>>)
    ensures r.Got? ==> |r.rest| < |t|
    decreases |t|, 3
  {
    if t != "" && t[0] == '}' then Got(map[], t[1..])
    else
      match ReadMember(t)
      case Fail => Fail
      case Got(m, rest) =>
        match ReadMembersTail(rest)
        case Fail => Fail
        case Got(ms, left) => Got(ms[m.0 := m.1], left)
  }

  function ReadMembersTail(t: string): (r: Parsed<map<string, Value>>)
    ensures r.Got? ==> |r.rest| < |t|
    decreases |t|, 0
  {
    if t == "" then Fail
    else if t[0] == '}' then Got(map[], t[1..])
    else if t[0] != ',' then Fail
    else
      match ReadMember(t[1..])
      case Fail => Fail
      case Got(m, rest) =>
        match ReadMembersTail(rest)
        case Fail => Fail
        case Got(ms, left) => Got(ms[m.0 := m.1], left)
  }

  // ---------------------------------------------------------------- round trips

  lemma {:induction false} DigitsLength(n: nat, k: nat)
    requires n < TenTo(k) && k > 0
    ensures |DigitsOf(n)| <= k
    decreases n
  {
    if n >= 10 {
      assert k > 1;
      DigitsLength(n / 10, k - 1);
    }
  }

  lemma WideEnough()
    ensures TenTo(20) == 100_000_000_000_000_000_000
  {
    assert TenTo(4) == 10_000;
    assert TenTo(8) == 100_000_000;
    assert TenTo(12) == 1_000_000_000_000;
    assert TenTo(16) == 10_000_000_000_000_000;
  }

  /** An integer prints as any spelling of the same number does. */
  lemma WholeIsNormal(i: WholeNumber)
    ensures WholeText(i) == NormalText(Normal(Whole(i).Denoted()))
  {
    var m: nat := if i < 0 then -i else i;
    if m > 0 {
      var sp := Spelling(i < 0, DigitsOf(m), [], 0);
      DigitsOfValue(m);
      assert sp.intPart + sp.fracPart == DigitsOf(m);
      WideEnough();
      DigitsLength(m, 20);
      WholeDigits(i < 0, DigitsOf(m));
    }
  }

  lemma WholeDigits(neg: bool, s: Digits)
    requires AreDigits(s) && s != [] && s[0] != '0' && |s| <= 21
    ensures NormalText(Normal(Decimal(neg, NatOf(s), 0))) == Sign(neg) + s
  {
    hide NatOf, DigitsOf, TrimEnd, Normal, NormalText, Zeros;
    var short := TrimEnd(s);
    DigitsAreUnique(s);
    TrimEndValue(s);
    var k := |s| - |short|;
    assert short[0] == s[0];
    DigitsAreUnique(short);
    PaddedBack(s, short, k);
    NormalDropsTens(neg, NatOf(short), k, 0);
    PlaceWhole(neg, short, k);
  }

  lemma PaddedBack(s: Digits, short: Digits, k: nat)
    requires AreDigits(s) && AreDigits(short) && short != [] && short <= s && |s| == |short| + k
    requires s[0] != '0' && NatOf(s) == NatOf(short) * TenTo(k)
    ensures short + Zeros(k) == s
  {
    assert short[0] == s[0];
    NatOfZerosAfter(short, k);
    DigitsAreUnique(short + Zeros(k));
    DigitsAreUnique(s);
  }

  lemma PlaceWhole(neg: bool, s: Digits, k: nat)
    requires AreDigits(s) && s != [] && NatOf(s) > 0 && s == DigitsOf(NatOf(s)) && |s| + k <= 21
    ensures NormalText(Decimal(neg, NatOf(s), k)) == Sign(neg) + (s + Zeros(k))
  {
    hide NatOf, DigitsOf, Zeros;
  }

  lemma NumberTextIsNormal(n: Number)
    ensures NumberText(n) == NormalText(Normal(n.Denoted()))
  {
    match n
    case Whole(i) => WholeIsNormal(i);
    case Float(sp) => EsNumberIsNormalText(sp);
  }

  ghost predicate OpensValue(t: string) {
    t != "" && t[0] != ']' && t[0] != '}'
  }

  lemma NumberOpens(n: Number)
    ensures NumberText(n) != "" && (IsDigit(NumberText(n)[0]) || NumberText(n)[0] == '-')
  {
    NumberTextIsNormal(n);
    var d := Normal(n.Denoted());
    if d.mantissa != 0 {
      var s := DigitsOf(d.mantissa);
      assert Place(s, d.exp + |s|)[0] == s[0] || Place(s, d.exp + |s|)[0] == '0';
    }
  }

  lemma CanonOpens(v: Json)
    ensures OpensValue(Canon(v))
  {
    match v
    case Num(n) => NumberOpens(n);
    case _ =>
  }

  lemma NumberReadsBack(n: Number, rest: string)
    requires EndsNumber(rest)
    ensures ReadValue(NumberText(n) + rest) == Got(NumValue(Normal(n.Denoted())), rest)
  {
    hide ReadNumber, NumberText, Normal, ReadValue;
    NumberOpens(n);
    NumberTextIsNormal(n);
    TextReadsBack(Normal(n.Denoted()), rest);
    var t := NumberText(n) + rest;
    assert t[0] == NumberText(n)[0];
    ReadsNumber(t, Normal(n.Denoted()), rest);
  }

  lemma ReadsNumber(t: string, d: Decimal, rest: string)
    requires t != "" && (IsDigit(t[0]) || t[0] == '-')
    requires ReadNumber(t) == Got(d, rest) && |rest| < |t|
    ensures ReadValue(t) == Got(NumValue(d), rest)
  {
    hide ReadNumber;
  }

  lemma StrReadsBack(s: string, rest: string)
    ensures ReadValue(Quote(s) + rest) == Got(StrValue(s), rest)
  {
    StringReadsBack(s, rest);
    hide ReadChars, EscapeAll;
    var t := Quote(s) + rest;
    assert t[1..] == EscapeAll(s) + ("\"" + rest);
  }

  /** Printing a value and reading it back gives the value, whatever follows it. */
  lemma {:induction false} ReadsBack(v: Json, rest: string)
    requires WellFormed(v) && EndsNumber(rest)
    ensures ReadValue(Canon(v) + rest) == Got(Meaning(v), rest)
    decreases v, 1
  {
    match v
    case Num(n) => NumberReadsBack(n, rest);
    case Str(s) => StrReadsBack(s, rest);
    case Arr(items) =>
      ItemsReadBack(items, rest);
      ArrReadsBack(items, rest);
    case Obj(ms) =>
      MembersReadBack(ms, rest);
      ObjReadsBack(ms, rest);
    case _ =>
  }

  lemma ArrReadsBack(items: seq<Json>, rest: string)
    requires ReadItems(ItemsText(items) + ("]" + rest)) == Got(Meanings(items), rest)
    ensures ReadValue(Canon(Arr(items)) + rest) == Got(Meaning(Arr(items)), rest)
  {
    hide ItemsText, ReadItems, Meanings;
    var t := Canon(Arr(items)) + rest;
    assert t[1..] == ItemsText(items) + ("]" + rest);
  }

  lemma {:induction false} ItemsReadBack(items: seq<Json>, rest: string)
    requires forall i :: 0 <= i < |items| ==> WellFormed(items[i])
    ensures ReadItems(ItemsText(items) + ("]" + rest)) == Got(Meanings(items), rest)
    decreases items, 0
  {
    hide Canon, ReadValue, TailText, ReadTail, EndsNumber;
    var end := "]" + rest;
    if items == [] {
      assert ItemsText(items) + end == end;
    } else {
      var more := TailText(items[1..]) + end;
      TailEndsNumber(items[1..], end);
      ReadsBack(items[0], more);
      TailReadsBack(items[1..], rest);
      CanonOpens(items[0]);
      var t := ItemsText(items) + end;
      assert t == Canon(items[0]) + more;
      assert t[0] == Canon(items[0])[0];
    }
  }

  lemma TailEndsNumber(items: seq<Json>, end: string)
    requires end != "" && (end[0] == ']' || end[0] == '}')
    ensures EndsNumber(TailText(items) + end)
  {
    hide Canon;
    if items == [] { assert TailText(items) + end == end; }
  }

  lemma {:induction false} TailReadsBack(items: seq<Json>, rest: string)
    requires forall i :: 0 <= i < |items| ==> WellFormed(items[i])
    ensures ReadTail(TailText(items) + ("]" + rest)) == Got(Meanings(items), rest)
    decreases items, 0
  {
    hide Canon, ReadValue, EndsNumber, TailText;
    var end := "]" + rest;
    var t := TailText(items) + end;
    TailGoesOn(items, end);
    if items != [] {
      var more := TailText(items[1..]) + end;
      TailEndsNumber(items[1..], end);
      ReadsBack(items[0], more);
      TailReadsBack(items[1..], rest);
    }
  }

  lemma TailGoesOn(items: seq<Json>, end: string)
    ensures var t := TailText(items) + end;
            if items == [] then t == end
            else t != "" && t[0] == ',' && t[1..] == Canon(items[0]) + (TailText(items[1..]) + end)
  {
    hide Canon;
    if items == [] {
      assert TailText(items) + end == end;
    } else {
      var c, tail := Canon(items[0]), TailText(items[1..]);
      assert TailText(items) == "," + (c + tail);
      hide TailText;
      Glue(c, tail, end);
      assert ("," + (c + tail)) + end == "," + ((c + tail) + end);
    }
  }

  lemma ObjReadsBack(ms: seq<Member>, rest: string)
    requires ReadMembers(MembersText(SortKeys(KeysOf(ms)), Texts(ms)) + ("}" + rest)) == Got(Bindings(ms), rest)
    ensures ReadValue(Canon(Obj(ms)) + rest) == Got(Meaning(Obj(ms)), rest)
  {
    hide MembersText, ReadMembers, Bindings, SortKeys, KeysOf, Texts;
    var t := Canon(Obj(ms)) + rest;
    assert t[1..] == MembersText(SortKeys(KeysOf(ms)), Texts(ms)) + ("}" + rest);
  }

  /** The member a key names, its text and its meaning. */
  lemma {:induction false} LookUp(ms: seq<Member>, key: string) returns (i: nat)
    requires key in KeysOf(ms)
    ensures i < |ms| && ms[i].key == key && forall j :: 0 <= j < i ==> ms[j].key != key
    ensures key in Texts(ms) && Texts(ms)[key] == Canon(ms[i].value)
    ensures key in Bindings(ms) && Bindings(ms)[key] == Meaning(ms[i].value)
  {
    hide Canon, Meaning;
    if ms[0].key == key {
      i := 0;
    } else {
      i := LookUp(ms[1..], key);
      i := i + 1;
    }
  }

  lemma {:induction false} OnlyKeys(ms: seq<Member>)
    ensures forall k :: k in Texts(ms) <==> k in KeysOf(ms)
    ensures forall k :: k in Bindings(ms) <==> k in KeysOf(ms)
  {
    hide Canon, Meaning;
    if ms != [] { OnlyKeys(ms[1..]); }
  }

  function Restrict(m: map<string, Value>, keys: seq<string>): map<string, Value>
    requires forall k :: k in keys ==> k in m
  {
    if keys == [] then map[] else Restrict(m, keys[1..])[keys[0] := m[keys[0]]]
  }

  lemma {:induction false} RestrictToAll(m: map<string, Value>, keys: seq<string>)
    requires forall k :: k in keys ==> k in m
    ensures forall k :: k in Restrict(m, keys) <==> k in keys
    ensures forall k :: k in keys ==> Restrict(m, keys)[k] == m[k]
  {
    if keys != [] {
      RestrictToAll(m, keys[1..]);
      assert keys == [keys[0]] + keys[1..];
    }
  }

  lemma {:induction false} MembersReadBack(ms: seq<Member>, rest: string)
    requires KeysDiffer(KeysOf(ms)) && forall i :: 0 <= i < |ms| ==> WellFormed(ms[i].value)
    ensures ReadMembers(MembersText(SortKeys(KeysOf(ms)), Texts(ms)) + ("}" + rest)) == Got(Bindings(ms), rest)
    decreases ms, 2
  {
    var keys, texts := SortKeys(KeysOf(ms)), Texts(ms);
    SortKeysRises(KeysOf(ms));
    OnlyKeys(ms);
    AllKeys(Bindings(ms), keys);
    hide SortKeys, KeysOf, Texts, Bindings, ReadMember, MemberText, EndsNumber, KeysRise, WellFormed;
    if keys == [] {
      EmptyReads(texts, rest);
    } else {
      var more := MembersTail(keys[1..], texts) + ("}" + rest);
      MembersTailReadsBack(ms, keys[1..], rest);
      MemberReadsBack(ms, keys[0], more);
      FirstMemberReads(keys, texts, rest, Bindings(ms));
    }
  }

  lemma AllKeys(m: map<string, Value>, keys: seq<string>)
    requires forall k :: k in keys <==> k in m
    ensures Restrict(m, keys) == m
  {
    RestrictToAll(m, keys);
  }

  lemma EmptyReads(texts: map<string, string>, rest: string)
    ensures ReadMembers(MembersText([], texts) + ("}" + rest)) == Got(map[], rest)
  {
    assert MembersText([], texts) + ("}" + rest) == "}" + rest;
  }

  lemma FirstMemberReads(keys: seq<string>, texts: map<string, string>, rest: string, m: map<string, Value>)
    requires keys != [] && forall k :: k in keys ==> k in m
    requires var more := MembersTail(keys[1..], texts) + ("}" + rest);
             && ReadMembersTail(more) == Got(Restrict(m, keys[1..]), rest)
             && ReadMember(MemberText(keys[0], texts) + more) == Got((keys[0], m[keys[0]]), more)
    ensures ReadMembers(MembersText(keys, texts) + ("}" + rest)) == Got(Restrict(m, keys), rest)
  {
    hide ReadMember, MemberText, ReadMembersTail, MembersTail, ReadMembers;
    MemberOpens(keys[0], texts);
    var first, tail := MemberText(keys[0], texts), MembersTail(keys[1..], texts);
    var more, t := tail + ("}" + rest), MembersText(keys, texts) + ("}" + rest);
    assert t == first + more;
    assert t[0] == first[0];
    ReadsMembersFrom(t, keys[0], m[keys[0]], more, Restrict(m, keys[1..]), rest);
  }

  lemma ReadsMembersFrom(t: string, key: string, v: Value, more: string, m: map<string, Value>, rest: string)
    requires t != "" && t[0] == '\"'
    requires ReadMember(t) == Got((key, v), more) && ReadMembersTail(more) == Got(m, rest)
    ensures ReadMembers(t) == Got(m[key := v], rest)
  {
    hide ReadMember, ReadMembersTail;
  }

  lemma MemberOpens(key: string, texts: map<string, string>)
    ensures MemberText(key, texts) != "" && MemberText(key, texts)[0] == '\"'
  {
  }

  lemma {:induction false} MembersTailReadsBack(ms: seq<Member>, keys: seq<string>, rest: string)
    requires forall i :: 0 <= i < |ms| ==> WellFormed(ms[i].value)
    requires forall k :: k in keys ==> k in KeysOf(ms) && k in Bindings(ms)
    ensures ReadMembersTail(MembersTail(keys, Texts(ms)) + ("}" + rest)) == Got(Restrict(Bindings(ms), keys), rest)
    ensures EndsNumber(MembersTail(keys, Texts(ms)) + ("}" + rest))
    decreases ms, 1, |keys|
  {
    hide KeysOf, Texts, Bindings, ReadMember, MemberText;
    var end, texts := "}" + rest, Texts(ms);
    var t := MembersTail(keys, texts) + end;
    if keys == [] {
      assert t == end;
    } else {
      MembersTailReadsBack(ms, keys[1..], rest);
      MemberReadsBack(ms, keys[0], MembersTail(keys[1..], texts) + end);
      assert t[1..] == MemberText(keys[0], texts) + (MembersTail(keys[1..], texts) + end);
    }
  }

  lemma {:induction false} MemberReadsBack(ms: seq<Member>, key: string, rest: string)
    requires forall i :: 0 <= i < |ms| ==> WellFormed(ms[i].value)
    requires key in KeysOf(ms) && key in Bindings(ms) && EndsNumber(rest)
    ensures ReadMember(MemberText(key, Texts(ms)) + rest) == Got((key, Bindings(ms)[key]), rest)
    decreases ms, 0, 0
  {
    hide Canon, Meaning, KeysOf, Texts, Bindings, ReadValue, EscapeAll, ReadChars, EndsNumber;
    var i := LookUp(ms, key);
    ReadsBack(ms[i].value, rest);
    MemberReads(key, Texts(ms), Meaning(ms[i].value), rest);
  }

  lemma MemberReads(key: string, texts: map<string, string>, v: Value, rest: string)
    requires key in texts && ReadValue(texts[key] + rest) == Got(v, rest)
    ensures ReadMember(MemberText(key, texts) + rest) == Got((key, v), rest)
  {
    hide ReadValue, ReadChars, MemberText;
    var t, body := MemberText(key, texts) + rest, texts[key] + rest;
    StringReadsBack(key, ":" + body);
    MemberShape(key, texts, rest);
    ReadsMember(t, key, ":" + body, body, v, rest);
  }

  lemma MemberShape(key: string, texts: map<string, string>, rest: string)
    requires key in texts
    ensures var t := MemberText(key, texts) + rest;
            && t != "" && t[0] == '\"'
            && t[1..] == EscapeAll(key) + ("\"" + (":" + (texts[key] + rest)))
  {
    hide EscapeAll;
    var e, x := EscapeAll(key), texts[key];
    var t := MemberText(key, texts) + rest;
    assert t == "\"" + (e + ("\"" + (":" + (x + rest))));
  }

  lemma ReadsMember(t: string, key: string, after: string, body: string, v: Value, rest: string)
    requires t != "" && t[0] == '\"' && ReadChars(t[1..]) == Got(key, after)
    requires after == ":" + body && ReadValue(body) == Got(v, rest)
    ensures ReadMember(t) == Got((key, v), rest)
  {
    hide ReadValue, ReadChars;
    assert after[1..] == body;
  }

  /** Reading a canonical text back gives exactly the value that was printed. */
  lemma CanonReadsBack(v: Json)
    requires WellFormed(v)
    ensures ReadValue(Canon(v)) == Got(Meaning(v), "")
  {
    ReadsBack(v, "");
    assert Canon(v) + "" == Canon(v);
  }

  // ------------------------------------------------- one text for each value

  lemma {:induction false} SameMeaningSameText(v: Json, w: Json)
    requires WellFormed(v) && WellFormed(w) && Meaning(v) == Meaning(w)
    ensures Canon(v) == Canon(w)
    decreases v, 1
  {
    match v
    case Num(n) =>
      NumberTextIsNormal(n);
      NumberTextIsNormal(w.n);
    case Arr(items) => SameItemsSameText(items, w.items);
    case Obj(ms) => SameMembersSameText(ms, w.members);
    case _ =>
  }

  lemma {:induction false} SameItemsSameText(a: seq<Json>, b: seq<Json>)
    requires forall i :: 0 <= i < |a| ==> WellFormed(a[i])
    requires forall i :: 0 <= i < |b| ==> WellFormed(b[i])
    requires Meanings(a) == Meanings(b)
    ensures ItemsText(a) == ItemsText(b) && TailText(a) == TailText(b)
    decreases a, 0
  {
    hide Canon, Meaning;
    assert |a| == |b|;
    if a != [] {
      assert Meanings(a)[0] == Meanings(b)[0];
      assert Meanings(a)[1..] == Meanings(a[1..]) && Meanings(b)[1..] == Meanings(b[1..]);
      SameMeaningSameText(a[0], b[0]);
      SameItemsSameText(a[1..], b[1..]);
    }
  }

  lemma {:induction false} SameMembersSameText(a: seq<Member>, b: seq<Member>)
    requires WellFormed(Obj(a)) && WellFormed(Obj(b)) && Bindings(a) == Bindings(b)
    ensures Canon(Obj(a)) == Canon(Obj(b))
    decreases a, 0
  {
    OnlyKeys(a);
    OnlyKeys(b);
    SortKeysRises(KeysOf(a));
    SortKeysRises(KeysOf(b));
    RisingIsUnique(SortKeys(KeysOf(a)), SortKeys(KeysOf(b)));
    forall k | k in KeysOf(a) ensures Texts(a)[k] == Texts(b)[k] {
      var i := LookUp(a, k);
      var j := LookUp(b, k);
      SameMeaningSameText(a[i].value, b[j].value);
    }
    assert Texts(a) == Texts(b);
  }

  /** Canonical means canonical: two values print alike if and only if they are the same
      value, objects taken as maps and numbers by what they denote. */
  lemma CanonIsCanonical(v: Json, w: Json)
    requires WellFormed(v) && WellFormed(w)
    ensures Canon(v) == Canon(w) <==> Meaning(v) == Meaning(w)
  {
    if Canon(v) == Canon(w) {
      CanonReadsBack(v);
      CanonReadsBack(w);
    } else if Meaning(v) == Meaning(w) {
      SameMeaningSameText(v, w);
    }
  }

  /** What the meaning of a number is: its value, whichever way it is held. */
  lemma NumbersMeanTheirValue(a: Number, b: Number)
    ensures Meaning(Num(a)) == Meaning(Num(b)) <==> a.Denoted().Value() == b.Denoted().Value()
  {
    NormalKeepsValue(a.Denoted());
    NormalKeepsValue(b.Denoted());
    if a.Denoted().Value() == b.Denoted().Value() {
      NormalIsUnique(Normal(a.Denoted()), Normal(b.Denoted()));
    }
  }

  /** The order an object's members come in does not show. */
  lemma MemberOrderDoesNotShow(a: seq<Member>, b: seq<Member>)
    requires WellFormed(Obj(a)) && WellFormed(Obj(b))
    requires forall m :: m in a <==> m in b
    ensures Canon(Obj(a)) == Canon(Obj(b))
  {
    BindsAllOf(a, b);
    BindsAllOf(b, a);
    assert Bindings(a) == Bindings(b);
    SameMembersSameText(a, b);
  }

  lemma BindsAllOf(a: seq<Member>, b: seq<Member>)
    requires KeysDiffer(KeysOf(b))
    requires forall m :: m in a ==> m in b
    ensures forall k :: k in Bindings(a) ==> k in Bindings(b) && Bindings(b)[k] == Bindings(a)[k]
  {
    OnlyKeys(a);
    forall k | k in Bindings(a) ensures k in Bindings(b) && Bindings(b)[k] == Bindings(a)[k] {
      var i := LookUp(a, k);
      assert a[i] in b;
      var j :| 0 <= j < |b| && b[j] == a[i];
      KeyIsBound(b, j);
    }
  }

  lemma {:induction false} KeyIsBound(ms: seq<Member>, i: nat)
    requires i < |ms| && KeysDiffer(KeysOf(ms))
    ensures ms[i].key in Bindings(ms) && Bindings(ms)[ms[i].key] == Meaning(ms[i].value)
  {
    hide Meaning;
    if i > 0 {
      KeysLineUp(ms, i);
      assert KeysOf(ms)[1..] == KeysOf(ms[1..]);
      assert KeysOf(ms)[i] != KeysOf(ms)[0];
      KeyIsBound(ms[1..], i - 1);
    }
  }

  lemma {:induction false} KeysLineUp(ms: seq<Member>, i: nat)
    requires i < |ms|
    ensures i < |KeysOf(ms)| && KeysOf(ms)[i] == ms[i].key
  {
    if i > 0 { KeysLineUp(ms[1..], i - 1); }
  }

  // ------------------------------------------------ the writer, as it is written

  /** The growing output text, and the recursion that pushes onto it. */
  class Writer {
    var out: string

    constructor ()
      ensures out == ""
    {
      out := "";
    }

    method Push(s: string)
      modifies this
      ensures out == old(out) + s
    {
      out := out + s;
    }

    method WriteValue(v: Json)
      modifies this
      ensures out == old(out) + Canon(v)
      decreases v, 1
    {
      hide ItemsText, MembersText, Quote, NumberText, SortKeys, KeysOf, Texts;
      match v
      case Null => Push("null");
      case Bool(b) => Push(if b then "true" else "false");
      case Num(n) => Push(NumberText(n));
      case Str(s) => Push(Quote(s));
      case Arr(items) =>
        Push("[");
        WriteItems(items);
        Push("]");
        Bracketed(old(out), "[", ItemsText(items), "]");
      case Obj(ms) =>
        var keys := SortKeys(KeysOf(ms));
        SortKeysRises(KeysOf(ms));
        Push("{");
        WriteMembers(ms, keys);
        Push("}");
        Bracketed(old(out), "{", MembersText(keys, Texts(ms)), "}");
    }

    method WriteItems(items: seq<Json>)
      modifies this
      ensures out == old(out) + ItemsText(items)
      decreases items, 0
    {
      hide Canon, TextFrom;
      for i := 0 to |items|
        invariant out + TextFrom(items, i) == old(out) + ItemsText(items)
      {
        ghost var before := out;
        if i > 0 { Push(","); }
        WriteValue(items[i]);
        ItemWritten(items, i, before, out);
      }
    }

    method WriteMembers(ms: seq<Member>, keys: seq<string>)
      requires forall k :: k in keys ==> k in KeysOf(ms)
      modifies this
      ensures out == old(out) + MembersText(keys, Texts(ms))
      decreases ms, 0
    {
      hide Canon, Texts, KeysOf, Quote, MembersFrom;
      for i := 0 to |keys|
        invariant out + MembersFrom(keys, Texts(ms), i) == old(out) + MembersText(keys, Texts(ms))
      {
        ghost var before := out;
        if i > 0 { Push(","); }
        assert out == before + Comma(i);
        var at := FindMember(ms, keys[i]);
        Push(Quote(keys[i]));
        Push(":");
        WriteValue(ms[at].value);
        MemberWritten(ms, keys, i, at, before, out);
      }
    }
  }

  /** What is still to be written from item `i` on; nothing is the empty text. */
  ghost function TextFrom(items: seq<Json>, i: nat): (r: string)
    requires i <= |items|
    ensures i == 0 ==> r == ItemsText(items)
    ensures i == |items| ==> r == ""
  {
    if i == 0 then ItemsText(items) else TailText(items[i..])
  }

  ghost function MembersFrom(keys: seq<string>, texts: map<string, string>, i: nat): (r: string)
    requires i <= |keys|
    ensures i == 0 ==> r == MembersText(keys, texts)
    ensures i == |keys| ==> r == ""
  {
    if i == 0 then MembersText(keys, texts) else MembersTail(keys[i..], texts)
  }

  lemma ItemWritten(items: seq<Json>, i: nat, before: string, after: string)
    requires i < |items|
    requires after == if i > 0 then (before + ",") + Canon(items[i]) else before + Canon(items[i])
    ensures after + TextFrom(items, i + 1) == before + TextFrom(items, i)
  {
    hide Canon;
    assert items[i..][1..] == items[i + 1..];
    var x, more := Canon(items[i]), TailText(items[i + 1..]);
    if i > 0 {
      assert ((before + ",") + x) + more == before + ("," + (x + more));
    } else {
      assert (before + x) + more == before + (x + more);
    }
  }

  lemma Regroup(p: string, q: string, x: string, more: string)
    ensures (((p + q) + ":") + x) + more == p + ((q + (":" + x)) + more)
  {
  }

  lemma Bracketed(before: string, open: string, body: string, close: string)
    ensures ((before + open) + body) + close == before + (open + (body + close))
  {
  }

  function Comma(i: nat): string { if i > 0 then "," else "" }

  lemma MembersFromStep(keys: seq<string>, texts: map<string, string>, i: nat)
    requires i < |keys|
    ensures MembersFrom(keys, texts, i) == Comma(i) + (MemberText(keys[i], texts) + MembersFrom(keys, texts, i + 1))
  {
    hide MemberText;
    assert keys[i..][1..] == keys[i + 1..];
    if i == 0 {
      var t := MemberText(keys[0], texts) + MembersFrom(keys, texts, 1);
      assert "" + t == t;
    }
  }

  lemma MemberWritten(ms: seq<Member>, keys: seq<string>, i: nat, at: nat, before: string, after: string)
    requires i < |keys| && keys[i] in KeysOf(ms)
    requires at < |ms| && ms[at].key == keys[i] && forall j :: 0 <= j < at ==> ms[j].key != keys[i]
    requires after == (((before + Comma(i)) + Quote(keys[i])) + ":") + Canon(ms[at].value)
    ensures after + MembersFrom(keys, Texts(ms), i + 1) == before + MembersFrom(keys, Texts(ms), i)
  {
    hide Canon, Texts, KeysOf, Quote, MembersFrom, Comma;
    var j := LookUp(ms, keys[i]);
    MembersFromStep(keys, Texts(ms), i);
    var more := MembersFrom(keys, Texts(ms), i + 1);
    Regroup(before + Comma(i), Quote(keys[i]), Canon(ms[at].value), more);
    Glue(before, Comma(i), MemberText(keys[i], Texts(ms)) + more);
  }

  lemma Glue(a: string, b: string, c: string)
    ensures (a + b) + c == a + (b + c)
  {
  }

  /** The first member a key names. */
  method FindMember(ms: seq<Member>, key: string) returns (i: nat)
    requires key in KeysOf(ms)
    ensures i < |ms| && ms[i].key == key
    ensures forall j :: 0 <= j < i ==> ms[j].key != key
  {
    i := 0;
    ghost var at := LookUp(ms, key);
    while ms[i].key != key
      invariant i <= at
      decreases at - i
      invariant forall j :: 0 <= j < i ==> ms[j].key != key
    {
      i := i + 1;
    }
  }

  // ---------------------------------------------------------- a line of its own

  /** No control character, and so no line end. */
  predicate OneLine(s: string) { forall i :: 0 <= i < |s| ==> s[i] as int >= 0x20 }

  lemma {:induction false} EscapedIsOneLine(s: string)
    ensures OneLine(EscapeAll(s))
  {
    if s != "" {
      EscapedIsOneLine(s[1..]);
    }
  }

  lemma WholeIsOneLine(i: WholeNumber)
    ensures OneLine(WholeText(i))
  {
    hide DigitsOf;
  }

  lemma NumberIsOneLine(n: Number)
    ensures OneLine(NumberText(n))
  {
    hide DigitsOf, TrimStart, TrimEnd, NatOf, Place, OneLine, AreDigits, WholeText;
    match n
    case Whole(i) => WholeIsOneLine(i);
    case Float(sp) => FloatIsOneLine(sp);
  }

  lemma FloatIsOneLine(sp: FloatSpelling)
    ensures OneLine(EsNumber(sp))
  {
    hide DigitsOf, TrimStart, TrimEnd, NatOf, Place, OneLine;
    var raw := sp.intPart + sp.fracPart;
    SignsAreOneLine(sp.neg, raw);
    if NatOf(raw) != 0 {
      var body := TrimStart(raw);
      TrimStartValue(raw);
      TrimEndValue(body);
      var n := |sp.intPart| + sp.exp - (|raw| - |body|);
      PlaceIsOneLine(TrimEnd(body), n);
      JoinedIsOneLine(Sign(sp.neg), Place(TrimEnd(body), n));
    }
  }

  lemma SignsAreOneLine(neg: bool, raw: string)
    ensures OneLine("0") && OneLine(Sign(neg))
  {
  }

  lemma JoinedIsOneLine(a: string, b: string)
    requires OneLine(a) && OneLine(b)
    ensures OneLine(a + b)
  {
  }

  lemma PartIsOneLine(s: string, i: nat)
    requires OneLine(s) && i <= |s|
    ensures OneLine(s[..i]) && OneLine(s[i..]) && OneLine(".") && OneLine("0.")
  {
  }

  lemma DigitsAreOneLine(s: Digits)
    requires AreDigits(s)
    ensures OneLine(s)
  {
  }

  lemma ExponentIsOneLine(e: int)
    ensures OneLine(ExponentText(e))
  {
    hide DigitsOf;
  }

  lemma PlaceIsOneLine(s: Digits, n: int)
    requires AreDigits(s) && s != []
    ensures OneLine(Place(s, n))
  {
    hide DigitsOf, OneLine, ExponentText, AreDigits, Zeros;
    DigitsAreOneLine(s);
    PartIsOneLine(s, 0);
    if |s| <= n && n <= 21 {
      DigitsAreOneLine(Zeros(n - |s|));
      JoinedIsOneLine(s, Zeros(n - |s|));
    } else if 0 < n && n <= 21 {
      PartIsOneLine(s, n);
      JoinedIsOneLine(s[..n], ".");
      JoinedIsOneLine(s[..n] + ".", s[n..]);
    } else if -6 < n && n <= 0 {
      DigitsAreOneLine(Zeros(-n));
      JoinedIsOneLine("0.", Zeros(-n));
      JoinedIsOneLine("0." + Zeros(-n), s);
    } else {
      ExponentIsOneLine(n - 1);
      PartIsOneLine(s, 1);
      JoinedIsOneLine(s, ExponentText(n - 1));
      JoinedIsOneLine(s[..1], ".");
      JoinedIsOneLine(s[..1] + ".", s[1..]);
      JoinedIsOneLine(s[..1] + "." + s[1..], ExponentText(n - 1));
    }
  }

  /** The canonical text of any value is one line, so a record or an event of one line's
      text is one line of the stream it is appended to. */
  lemma {:induction false} CanonIsOneLine(v: Json)
    ensures OneLine(Canon(v))
    decreases v, 1
  {
    hide NumberText, EscapeAll;
    match v
    case Null =>
    case Bool(_) =>
    case Num(n) => NumberIsOneLine(n);
    case Str(s) => EscapedIsOneLine(s);
    case Arr(items) => ItemsAreOneLine(items);
    case Obj(ms) =>
      TextsAreOneLine(ms);
      MembersAreOneLine(SortKeys(KeysOf(ms)), Texts(ms));
  }

  lemma {:induction false} ItemsAreOneLine(items: seq<Json>)
    ensures OneLine(ItemsText(items)) && OneLine(TailText(items))
    decreases items, 0
  {
    hide Canon;
    if items != [] {
      CanonIsOneLine(items[0]);
      ItemsAreOneLine(items[1..]);
    }
  }

  ghost predicate AllOneLine(texts: map<string, string>) { forall k :: k in texts ==> OneLine(texts[k]) }

  lemma {:induction false} TextsAreOneLine(ms: seq<Member>)
    ensures AllOneLine(Texts(ms))
    decreases ms, 0
  {
    hide Canon, OneLine;
    if ms != [] {
      CanonIsOneLine(ms[0].value);
      TextsAreOneLine(ms[1..]);
    }
  }

  lemma {:induction false} MembersAreOneLine(keys: seq<string>, texts: map<string, string>)
    requires AllOneLine(texts)
    ensures OneLine(MembersText(keys, texts)) && OneLine(MembersTail(keys, texts))
  {
    hide EscapeAll;
    if keys != [] {
      EscapedIsOneLine(keys[0]);
      MembersAreOneLine(keys[1..], texts);
    }
  }
}
