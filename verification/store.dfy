/** The two storage backends of a ledger node (crates/cluster/src/store.rs and
    crates/cluster/src/redbstore.rs): raft log and state machine, in memory and in a
    transactional file that a crash may cut off between any two commits.

    `Disk` is the content of the file after a commit. An operation of the durable backend
    is the list of disks its transactions commit, one after the other; a crash leaves the
    last one reached. Writing a value and reading it back gives the value. */
module Store {
  import opened Ledger
  import opened Wrappers

  type Index = u64

  datatype LogId = LogId(term: nat, node: nat, index: Index)
  datatype Vote = Vote(term: nat, node: nat, committed: bool)
  datatype StoredMembership = StoredMembership(logId: Option<LogId>, members: set<nat>)
  datatype Payload = Blank | Normal(req: Request) | Membership(members: set<nat>)
  datatype Entry = Entry(logId: LogId, payload: Payload)

  type Log = map<Index, Entry>

  datatype SnapshotId = SnapshotId(last: Option<LogId>, count: nat)
  datatype Meta = Meta(lastLogId: Option<LogId>, membership: StoredMembership, id: SnapshotId)
  datatype StoredSnapshot = StoredSnapshot(meta: Meta, data: Runs)

  datatype SmPersist = SmPersist(lastApplied: Option<LogId>, membership: StoredMembership, ledger: Runs)

  const NO_STATE := SmPersist(None, StoredMembership(None, {}), map[])

  datatype Disk = Disk(
    log: Log, vote: Option<Vote>, committed: Option<Option<LogId>>, purged: Option<LogId>,
    state: Option<SmPersist>, snapshot: Option<StoredSnapshot>)

  const NEW_DISK := Disk(map[], None, None, None, None, None)

  /** A redb file, with every state it has committed. */
  class Database {
    var disk: Disk
    ghost var commits: seq<Disk>

    constructor ()
      ensures disk == NEW_DISK && commits == []
    {
      disk, commits := NEW_DISK, [];
    }

    method Commit(next: Disk)
      modifies this
      ensures disk == next && commits == old(commits) + [next]
    {
      disk, commits := next, commits + [next];
    }
  }

  /** The disk after some commits. */
  function After(disk: Disk, commits: seq<Disk>): Disk {
    if commits == [] then disk else commits[|commits| - 1]
  }

  // ---------------------------------------------------------------------- the log

  datatype Bound = Included(index: Index) | Excluded(index: Index) | Unbounded

  /** Entries of an ordered table with `from <= index < to`, in order. */
  function InRange(log: Log, from: nat, to: nat): seq<Entry>
    decreases if from < to then to - from else 0
  {
    if from >= to then []
    else (if from in log then [log[from]] else []) + InRange(log, from + 1, to)
  }

  ghost predicate Rising(order: seq<Index>) { forall i, j :: 0 <= i < j < |order| ==> order[i] < order[j] }

  /** `entries` are those of the indices `order`, which rise and are exactly `keys`. */
  ghost predicate InOrder(log: Log, keys: set<Index>, order: seq<Index>, entries: seq<Entry>) {
    && Rising(order) && |entries| == |order|
    && (forall k :: k in order <==> k in keys)
    && (forall i :: 0 <= i < |order| ==> order[i] in log && entries[i] == log[order[i]])
  }

  /** The entries of those indices, each once and in the order of the indices. */
  ghost predicate Lists(log: Log, keys: set<Index>, entries: seq<Entry>) {
    exists order :: InOrder(log, keys, order, entries)
  }

  function KeysIn(log: Log, from: nat, to: nat): set<Index> { set k | k in log && from <= k < to }

  predicate IsLeast(k: Index, keys: set<Index>) { k in keys && forall j :: j in keys ==> k <= j }

  lemma {:induction false} HasLeast(keys: set<Index>) returns (k: Index)
    requires keys != {}
    ensures IsLeast(k, keys)
  {
    k :| k in keys;
    var rest := keys - {k};
    if rest != {} {
      var l := HasLeast(rest);
      assert forall j :: j in keys ==> j == k || j in rest;
      if l < k { k := l; }
    } else {
      assert forall j :: j in keys ==> j == k || j in rest;
    }
  }

  lemma LeastIsBelow(k: Index, keys: set<Index>)
    requires IsLeast(k, keys)
    ensures forall j :: j in keys - {k} ==> k < j
  {
    forall j | j in keys - {k} ensures k < j {
      assert j in keys;
    }
  }

  lemma FirstIsMember<T>(s: seq<T>)
    ensures s != [] ==> s[0] in s
  {
  }

  /** The first index of a list is the least, and the rest is a list of the others. */
  lemma FirstOfList(log: Log, from: nat, to: nat, order: seq<Index>, entries: seq<Entry>)
    requires from < to && from in log && InOrder(log, KeysIn(log, from, to), order, entries)
    ensures order != [] && entries != [] && order[0] == from && entries == [log[from]] + entries[1..]
    ensures InOrder(log, KeysIn(log, from + 1, to), order[1..], entries[1..])
  {
    assert from in KeysIn(log, from, to) && order != [];
    var i :| 0 <= i < |order| && order[i] == from;
    assert order[0] in KeysIn(log, from, to);
    assert order == [order[0]] + order[1..];
    forall k ensures k in order[1..] <==> k in KeysIn(log, from + 1, to) {
      assert k in order <==> k == from || k in order[1..];
    }
  }

  lemma NoKeyAt(log: Log, from: nat, to: nat)
    ensures from >= to ==> KeysIn(log, from, to) == {}
    ensures from !in log ==> KeysIn(log, from, to) == KeysIn(log, from + 1, to)
  {
  }

  /** Such a list is the range; so there is one, and no other. */
  lemma {:induction false} ListIsRange(log: Log, from: nat, to: nat, order: seq<Index>, entries: seq<Entry>)
    requires InOrder(log, KeysIn(log, from, to), order, entries)
    ensures entries == InRange(log, from, to)
    decreases if from < to then to - from else 0
  {
    NoKeyAt(log, from, to);
    if from >= to {
      FirstIsMember(order);
    } else {
      hide InOrder, KeysIn;
      if from in log {
        FirstOfList(log, from, to, order, entries);
        ListIsRange(log, from + 1, to, order[1..], entries[1..]);
      } else {
        ListIsRange(log, from + 1, to, order, entries);
      }
    }
  }

  lemma InOrderMore(log: Log, keys: set<Index>, order: seq<Index>, entries: seq<Entry>, k: Index)
    requires InOrder(log, keys, order, entries) && k in log && forall i :: 0 <= i < |order| ==> order[i] < k
    ensures InOrder(log, keys + {k}, order + [k], entries + [log[k]])
  {
  }

  lemma LessLeft(keys: set<Index>, left: set<Index>, k: Index)
    requires left <= keys && k in left
    ensures keys - left + {k} == keys - (left - {k}) && k in keys && |left - {k}| < |left|
  {
  }

  /** Key by key, as both backends read a range. */
  method ReadRange(log: Log, from: nat, to: nat) returns (entries: seq<Entry>)
    ensures entries == InRange(log, from, to) && Lists(log, KeysIn(log, from, to), entries)
  {
    entries := [];
    ghost var order: seq<Index> := [];
    var left := KeysIn(log, from, to);
    while left != {}
      invariant left <= KeysIn(log, from, to)
      invariant InOrder(log, KeysIn(log, from, to) - left, order, entries)
      invariant forall i, j :: 0 <= i < |order| && j in left ==> order[i] < j
      decreases |left|
    {
      hide Lists, InRange, InOrder;
      ghost var least := HasLeast(left);
      var k :| k in left && IsLeast(k, left);
      InOrderMore(log, KeysIn(log, from, to) - left, order, entries, k);
      LeastIsBelow(k, left);
      LessLeft(KeysIn(log, from, to), left, k);
      entries := entries + [log[k]];
      order := order + [k];
      left := left - {k};
    }
    assert KeysIn(log, from, to) - {} == KeysIn(log, from, to);
    ListIsRange(log, from, to, order, entries);
  }

  /** The highest index under `top`. */
  function LastUnder(log: Log, top: nat): (last: Option<Index>)
    ensures last.None? ==> forall k :: k in log ==> k >= top
    ensures last.Some? ==> last.value in log && last.value < top && forall k :: k in log && k < top ==> k <= last.value
  {
    if top == 0 then None else if top - 1 in log then Some(top - 1) else LastUnder(log, top - 1)
  }

  const TOP: nat := U64_MAX + 1

  function LastEntry(log: Log): Option<Entry> {
    var last := LastUnder(log, TOP);
    if last.None? then None else Some(log[last.value])
  }

  function Inserted(log: Log, entries: seq<Entry>): Log {
    if entries == [] then log
    else
      var e := entries[|entries| - 1];
      Inserted(log, entries[..|entries| - 1])[e.logId.index := e]
  }

  function Below(log: Log, index: Index): Log { map k | k in log && k < index :: log[k] }

  function Above(log: Log, index: Index): Log { map k | k in log && k > index :: log[k] }

  /** The entries whose index is one of those, and no other. */
  ghost predicate HasKept(log: Log, next: Log, keeps: Index -> bool) {
    forall k: Index :: (k in next <==> k in log && keeps(k)) && (k in next ==> next[k] == log[k])
  }

  /** The last of the entries for an index. */
  function LastFor(entries: seq<Entry>, k: Index): Option<Entry>
    decreases |entries|
  {
    if entries == [] then None
    else
      var later := LastFor(entries[1..], k);
      if later.Some? then later else if entries[0].logId.index == k then Some(entries[0]) else None
  }

  /** At every index the last of the entries for it; where there is none, what was there. */
  ghost predicate HasAppended(log: Log, entries: seq<Entry>, next: Log) {
    forall k: Index :: HasAt(log, LastFor(entries, k), next, k)
  }

  ghost predicate HasAt(log: Log, last: Option<Entry>, next: Log, k: Index) {
    if last.Some? then k in next && next[k] == last.value
    else (k in next <==> k in log) && (k in log ==> k in next && next[k] == log[k])
  }

  lemma {:induction false} LastForMore(entries: seq<Entry>, e: Entry, k: Index)
    ensures LastFor(entries + [e], k) == if e.logId.index == k then Some(e) else LastFor(entries, k)
    decreases |entries|
  {
    if entries == [] {
      assert entries + [e] == [e] && [e][1..] == [];
    } else {
      assert (entries + [e])[1..] == entries[1..] + [e];
      LastForMore(entries[1..], e, k);
    }
  }

  lemma {:induction false} InsertedHas(log: Log, entries: seq<Entry>)
    ensures HasAppended(log, entries, Inserted(log, entries))
    decreases |entries|
  {
    if entries != [] {
      hide LastFor;
      var front, e := entries[..|entries| - 1], entries[|entries| - 1];
      assert entries == front + [e];
      InsertedHas(log, front);
      forall k: Index ensures HasAt(log, LastFor(entries, k), Inserted(log, entries), k) {
        LastForMore(front, e, k);
        assert HasAt(log, LastFor(front, k), Inserted(log, front), k);
      }
    }
  }

  datatype LogState = LogState(purged: Option<LogId>, last: Option<LogId>)

  function StateOf(log: Log, purged: Option<LogId>): LogState {
    LogState(purged, match LastEntry(log) { case Some(e) => Some(e.logId) case None => purged })
  }

  datatype LogOp =
    | SaveVote(vote: Vote)
    | SaveCommitted(committed: Option<LogId>)
    | Append(entries: seq<Entry>)
    | Truncate(id: LogId)
    | Purge(id: LogId)

  // ... in memory

  datatype LogInner = LogInner(vote: Option<Vote>, log: Log, committed: Option<LogId>, lastPurged: Option<LogId>)

  const NEW_LOG := LogInner(None, map[], None, None)

  function LogAfter(inner: LogInner, op: LogOp): LogInner {
    match op
    case SaveVote(v) => inner.(vote := Some(v))
    case SaveCommitted(c) => inner.(committed := c)
    case Append(entries) => inner.(log := Inserted(inner.log, entries))
    case Truncate(id) => inner.(log := Below(inner.log, id.index))
    case Purge(id) => inner.(lastPurged := Some(id), log := Above(inner.log, id.index))
  }

  function StartIn(b: Bound): nat {
    match b case Included(x) => x case Excluded(x) => x + 1 case Unbounded => 0
  }

  function EndIn(b: Bound): nat {
    match b case Included(x) => x + 1 case Excluded(x) => x case Unbounded => TOP
  }

  predicate Contains(start: Bound, end: Bound, k: Index) {
    && (match start case Included(x) => x <= k case Excluded(x) => x < k case Unbounded => true)
    && (match end case Included(x) => k <= x case Excluded(x) => k < x case Unbounded => true)
  }

  function KeysBetween(log: Log, start: Bound, end: Bound): set<Index> {
    set k | k in log && Contains(start, end, k)
  }

  /** The ranges an ordered map refuses: the start after the end, or both bounds excluding
      one index. */
  predicate Inverted(start: Bound, end: Bound) {
    && !start.Unbounded? && !end.Unbounded?
    && (start.index > end.index || (start.index == end.index && start.Excluded? && end.Excluded?))
  }

  /** Nothing, if the map panics: it does on an inverted range, once something was put in it. */
  function RangeInMap(log: Log, used: bool, start: Bound, end: Bound): Option<seq<Entry>> {
    if Inverted(start, end) && used then None else Some(InRange(log, StartIn(start), EndIn(end)))
  }

  class LogStore {
    var vote: Option<Vote>
    var log: Log
    var committed: Option<LogId>
    var lastPurged: Option<LogId>
    // Whether anything was ever put in the log; a map keeps its root when it is emptied.
    var used: bool

    ghost function State(): LogInner
      reads this
    {
      LogInner(vote, log, committed, lastPurged)
    }

    constructor ()
      ensures State() == NEW_LOG && !used
    {
      vote, log, committed, lastPurged, used := None, map[], None, None, false;
    }

    /** No answer on an inverted range of a log that was used, and otherwise every entry between
        the bounds, once and in the order of the indices. */
    method TryGetLogEntries(start: Bound, end: Bound) returns (entries: Option<seq<Entry>>)
      ensures entries == RangeInMap(log, used, start, end)
      ensures entries.Some? ==> Lists(log, KeysBetween(log, start, end), entries.value)
    {
      if Inverted(start, end) && used {
        return None;
      }
      var read := ReadRange(log, StartIn(start), EndIn(end));
      assert KeysIn(log, StartIn(start), EndIn(end)) == KeysBetween(log, start, end);
      entries := Some(read);
    }

    method GetLogState() returns (s: LogState)
      ensures s == StateOf(log, lastPurged)
    {
      var last := LastEntry(log);
      s := LogState(lastPurged, if last.Some? then Some(last.value.logId) else lastPurged);
    }

    method SaveVote(v: Vote)
      modifies this
      ensures State() == LogAfter(old(State()), LogOp.SaveVote(v)) && used == old(used)
      ensures State() == old(State()).(vote := Some(v))
    {
      vote := Some(v);
    }

    method SaveCommitted(c: Option<LogId>)
      modifies this
      ensures State() == LogAfter(old(State()), LogOp.SaveCommitted(c)) && used == old(used)
      ensures State() == old(State()).(committed := c)
    {
      committed := c;
    }

    method Append(entries: seq<Entry>)
      modifies this
      ensures State() == LogAfter(old(State()), LogOp.Append(entries)) && used == (old(used) || entries != [])
      ensures State() == old(State()).(log := log) && HasAppended(old(log), entries, log)
    {
      for i := 0 to |entries|
        invariant State() == LogAfter(old(State()), LogOp.Append(entries[..i]))
        invariant used == (old(used) || i > 0)
      {
        assert entries[..i + 1][..i] == entries[..i];
        log := log[entries[i].logId.index := entries[i]];
        used := true;
      }
      assert entries[..|entries|] == entries;
      InsertedHas(old(log), entries);
    }

    method Truncate(id: LogId)
      modifies this
      ensures State() == LogAfter(old(State()), LogOp.Truncate(id)) && used == old(used)
      ensures State() == old(State()).(log := log) && HasKept(old(log), log, k => k < id.index)
    {
      log := RemoveAll(log, set k | k in log && k >= id.index);
    }

    method Purge(id: LogId)
      modifies this
      ensures State() == LogAfter(old(State()), LogOp.Purge(id)) && used == old(used)
      ensures State() == old(State()).(log := log, lastPurged := Some(id)) && HasKept(old(log), log, k => k > id.index)
    {
      lastPurged := Some(id);
      log := RemoveAll(log, set k | k in log && k <= id.index);
    }
  }

  /** Key by key, as both backends remove a range. */
  method RemoveAll(log: Log, keys: set<Index>) returns (rest: Log)
    ensures rest == log - keys
  {
    rest := log;
    var left := keys;
    while left != {}
      invariant left <= keys && rest == log - (keys - left)
      decreases |left|
    {
      var k :| k in left;
      rest := rest - {k};
      left := left - {k};
    }
  }

  // ... in the file

  /** The disks an operation on the log commits. Purging is two transactions. */
  function LogCommits(disk: Disk, op: LogOp): (commits: seq<Disk>)
    ensures commits != []
  {
    match op
    case SaveVote(v) => [disk.(vote := Some(v))]
    case SaveCommitted(c) => [disk.(committed := Some(c))]
    case Append(entries) => [disk.(log := Inserted(disk.log, entries))]
    case Truncate(id) => [disk.(log := Below(disk.log, id.index))]
    case Purge(id) => [disk.(purged := Some(id)), disk.(purged := Some(id), log := Above(disk.log, id.index))]
  }

  /** The bounds as the durable reader takes them: an end past the last index does not fit
      64 bits, and no end means the last index itself, which the range then leaves out. */
  function StartAt(b: Bound): Option<Index> {
    match b
    case Included(x) => Some(x)
    case Excluded(x) => if x == U64_MAX then None else Some(x + 1)
    case Unbounded => Some(0)
  }

  function EndAt(b: Bound): Option<Index> {
    match b
    case Included(x) => if x == U64_MAX then None else Some(x + 1)
    case Excluded(x) => Some(x)
    case Unbounded => Some(U64_MAX)
  }

  /** Nothing, if a bound overflows; of an inverted range the table gives no entries. */
  function RangeInTable(log: Log, start: Bound, end: Bound): Option<seq<Entry>> {
    if StartAt(start).None? || EndAt(end).None? then None
    else Some(InRange(log, StartAt(start).value, EndAt(end).value))
  }

  class RedbLogStore {
    const db: Database

    constructor (db: Database)
      ensures this.db == db
    {
      this.db := db;
    }

    method TryGetLogEntries(start: Bound, end: Bound) returns (entries: Option<seq<Entry>>)
      ensures entries == RangeInTable(db.disk.log, start, end)
      ensures entries.Some? && !end.Unbounded? ==>
                Lists(db.disk.log, KeysBetween(db.disk.log, start, end), entries.value)
    {
      var from, to := StartAt(start), EndAt(end);
      if from.None? || to.None? {
        return None;
      }
      var read := ReadRange(db.disk.log, from.value, to.value);
      assert !end.Unbounded? ==>
          KeysIn(db.disk.log, from.value, to.value) == KeysBetween(db.disk.log, start, end);
      entries := Some(read);
    }

    method GetLogState() returns (s: LogState)
      ensures s == StateOf(db.disk.log, db.disk.purged)
    {
      var purged := db.disk.purged;
      var last := LastEntry(db.disk.log);
      s := LogState(purged, if last.Some? then Some(last.value.logId) else purged);
    }

    method SaveVote(v: Vote)
      modifies db
      ensures Committed(old(db.disk), old(db.commits), LogOp.SaveVote(v))
      ensures db.disk == old(db.disk).(vote := Some(v)) && db.commits == old(db.commits) + [db.disk]
    {
      db.Commit(db.disk.(vote := Some(v)));
    }

    method ReadVote() returns (v: Option<Vote>)
      ensures v == db.disk.vote
    {
      v := db.disk.vote;
    }

    method SaveCommitted(c: Option<LogId>)
      modifies db
      ensures Committed(old(db.disk), old(db.commits), LogOp.SaveCommitted(c))
      ensures db.disk == old(db.disk).(committed := Some(c)) && db.commits == old(db.commits) + [db.disk]
    {
      db.Commit(db.disk.(committed := Some(c)));
    }

    method ReadCommitted() returns (c: Option<LogId>)
      ensures c == View(db.disk).committed
    {
      c := if db.disk.committed.Some? then db.disk.committed.value else None;
    }

    /** The file is where the operation leaves it, and has been where it commits. */
    ghost predicate Committed(disk: Disk, commits: seq<Disk>, op: LogOp)
      reads db
    {
      db.disk == After(disk, LogCommits(disk, op)) && db.commits == commits + LogCommits(disk, op)
    }

    method Append(entries: seq<Entry>)
      modifies db
      ensures Committed(old(db.disk), old(db.commits), LogOp.Append(entries))
      ensures db.disk == old(db.disk).(log := db.disk.log) && HasAppended(old(db.disk.log), entries, db.disk.log)
      ensures db.commits == old(db.commits) + [db.disk]
    {
      var table := db.disk.log;
      for i := 0 to |entries|
        invariant table == Inserted(db.disk.log, entries[..i])
        invariant db.disk == old(db.disk) && db.commits == old(db.commits)
      {
        assert entries[..i + 1][..i] == entries[..i];
        table := table[entries[i].logId.index := entries[i]];
      }
      assert entries[..|entries|] == entries;
      InsertedHas(db.disk.log, entries);
      db.Commit(db.disk.(log := table));
    }

    method Truncate(id: LogId)
      modifies db
      ensures Committed(old(db.disk), old(db.commits), LogOp.Truncate(id))
      ensures db.disk == old(db.disk).(log := db.disk.log) && HasKept(old(db.disk.log), db.disk.log, k => k < id.index)
      ensures db.commits == old(db.commits) + [db.disk]
    {
      var log := db.disk.log;
      var table := RemoveAll(log, set k | k in log && k >= id.index);
      db.Commit(db.disk.(log := table));
    }

    method Purge(id: LogId)
      modifies db
      ensures Committed(old(db.disk), old(db.commits), LogOp.Purge(id))
      ensures db.disk == old(db.disk).(log := db.disk.log, purged := Some(id))
      ensures HasKept(old(db.disk.log), db.disk.log, k => k > id.index)
      ensures db.commits == old(db.commits) + [old(db.disk).(purged := Some(id)), db.disk]
    {
      db.Commit(db.disk.(purged := Some(id)));
      var log := db.disk.log;
      var table := RemoveAll(log, set k | k in log && k <= id.index);
      db.Commit(db.disk.(log := table));
    }
  }

  // ... and the two agree

  /** The file as the in-memory store would hold it. */
  function View(disk: Disk): LogInner {
    LogInner(disk.vote, disk.log, if disk.committed.Some? then disk.committed.value else None, disk.purged)
  }

  function LogAfterAll(inner: LogInner, ops: seq<LogOp>): LogInner
    decreases |ops|
  {
    if ops == [] then inner else LogAfter(LogAfterAll(inner, ops[..|ops| - 1]), ops[|ops| - 1])
  }

  function DiskAfterAll(disk: Disk, ops: seq<LogOp>): Disk
    decreases |ops|
  {
    if ops == [] then disk
    else
      var before := DiskAfterAll(disk, ops[..|ops| - 1]);
      After(before, LogCommits(before, ops[|ops| - 1]))
  }

  /** Without a crash the file always holds what the in-memory store would. */
  lemma {:induction false} LogsAgree(disk: Disk, ops: seq<LogOp>)
    ensures View(DiskAfterAll(disk, ops)) == LogAfterAll(View(disk), ops)
    decreases |ops|
  {
    if ops != [] {
      LogsAgree(disk, ops[..|ops| - 1]);
    }
  }

  lemma {:induction false} RangeSplits(log: Log, from: nat, mid: nat, to: nat)
    requires from <= mid <= to
    ensures InRange(log, from, to) == InRange(log, from, mid) + InRange(log, mid, to)
    decreases mid - from
  {
    if from < mid { RangeSplits(log, from + 1, mid, to); }
  }

  /** Some entry was appended, if only to be removed again. */
  predicate EverUsed(ops: seq<LogOp>) {
    exists i :: 0 <= i < |ops| && ops[i].Append? && ops[i].entries != []
  }

  /** The queries both readers answer, and answer alike: not an inverted range of a log that
      was used, on which the map panics and the table gives nothing; not a bound past the last
      index, which overflows; and not one without an end when there is an entry at the last
      index. */
  predicate BothReach(log: Log, used: bool, start: Bound, end: Bound) {
    && !(Inverted(start, end) && used)
    && start != Excluded(U64_MAX) && end != Included(U64_MAX)
    && (end.Unbounded? ==> U64_MAX !in log)
  }

  /** ... so after any operations both answer every query alike, but those and only those. */
  lemma AnswersAgree(ops: seq<LogOp>, start: Bound, end: Bound)
    ensures var mem, disk := LogAfterAll(NEW_LOG, ops), DiskAfterAll(NEW_DISK, ops);
            && StateOf(disk.log, disk.purged) == StateOf(mem.log, mem.lastPurged)
            && View(disk).vote == mem.vote && View(disk).committed == mem.committed
            && (BothReach(mem.log, EverUsed(ops), start, end) <==>
                  RangeInMap(mem.log, EverUsed(ops), start, end).Some?
                  && RangeInTable(disk.log, start, end) == RangeInMap(mem.log, EverUsed(ops), start, end))
  {
    hide LogAfterAll, DiskAfterAll, InRange, StateOf, EverUsed;
    LogsAgree(NEW_DISK, ops);
    RangesAgree(LogAfterAll(NEW_LOG, ops).log, EverUsed(ops), start, end);
  }

  lemma RangesAgree(log: Log, used: bool, start: Bound, end: Bound)
    ensures BothReach(log, used, start, end) <==>
              RangeInMap(log, used, start, end).Some?
              && RangeInTable(log, start, end) == RangeInMap(log, used, start, end)
  {
    hide InRange;
    if end.Unbounded? && StartAt(start).Some? {
      LastIndex(log);
      RangeSplits(log, StartAt(start).value, U64_MAX, TOP);
      var without, whole := InRange(log, StartAt(start).value, U64_MAX), InRange(log, StartAt(start).value, TOP);
      if U64_MAX in log { assert |whole| == |without| + 1; } else { assert whole == without; }
      assert StartIn(start) == StartAt(start).value && EndIn(end) == TOP && EndAt(end) == Some(U64_MAX);
    }
  }

  /** An entry appended at the last index is read back by the one and not by the other. */
  lemma LastIndexIsLeftOut(payload: Payload)
    ensures var e := Entry(LogId(1, 1, U64_MAX), payload);
            var ops := [LogOp.Append([e])];
            && RangeInMap(LogAfterAll(NEW_LOG, ops).log, EverUsed(ops), Unbounded, Unbounded) == Some([e])
            && RangeInTable(DiskAfterAll(NEW_DISK, ops).log, Unbounded, Unbounded) == Some([])
  {
    var e := Entry(LogId(1, 1, U64_MAX), payload);
    var ops := [LogOp.Append([e])];
    LogsAgree(NEW_DISK, ops);
    assert ops[..0] == [] && [e][..0] == [];
    assert LogAfterAll(NEW_LOG, ops) == LogAfter(NEW_LOG, ops[0]);
    var log: Log := map[U64_MAX := e];
    assert Inserted(map[], [e]) == log;
    hide InRange;
    NothingBelow(log, 0, U64_MAX);
    LastIndex(log);
    RangeSplits(log, 0, U64_MAX, TOP);
    assert [] + [e] == [e];
    assert View(NEW_DISK) == NEW_LOG && DiskAfterAll(NEW_DISK, ops).log == log;
  }

  lemma {:induction false} NothingBelow(log: Log, from: nat, to: nat)
    requires forall k :: k in log ==> k >= to
    ensures InRange(log, from, to) == []
    decreases if from < to then to - from else 0
  {
    if from < to { NothingBelow(log, from + 1, to); }
  }

  /** A range from 5 down to 3 stops the process in memory, once anything was appended, and is
      empty on disk. */
  lemma InvertedRangePanics(ops: seq<LogOp>)
    ensures RangeInMap(LogAfterAll(NEW_LOG, ops).log, EverUsed(ops), Included(5), Excluded(3))
         == if EverUsed(ops) then None else Some([])
    ensures RangeInTable(DiskAfterAll(NEW_DISK, ops).log, Included(5), Excluded(3)) == Some([])
  {
    assert InRange(DiskAfterAll(NEW_DISK, ops).log, 5, 3) == [];
    assert InRange(LogAfterAll(NEW_LOG, ops).log, 5, 3) == [];
  }

  /** The range of one index holds its entry if both bounds include it, nothing if one does, and
      stops the process in memory, once anything was appended, if neither does. */
  lemma RangeOfOneIndex(log: Log, used: bool, k: Index)
    ensures RangeInMap(log, used, Included(k), Included(k)) == Some(if k in log then [log[k]] else [])
    ensures RangeInMap(log, used, Included(k), Excluded(k)) == Some([])
    ensures RangeInMap(log, used, Excluded(k), Included(k)) == Some([])
    ensures RangeInMap(log, used, Excluded(k), Excluded(k)) == if used then None else Some([])
  {
    assert InRange(log, k + 1, k + 1) == [];
    var found := if k in log then [log[k]] else [];
    assert found + [] == found;
  }

  lemma LastIndex(log: Log)
    ensures InRange(log, U64_MAX, TOP) == if U64_MAX in log then [log[U64_MAX]] else []
  {
    assert InRange(log, U64_MAX + 1, TOP) == [];
  }

  ghost predicate HasWithin(log: Log, from: nat, to: nat, e: Entry) {
    exists k :: k in log && from <= k < to && log[k] == e
  }

  /** A range holds exactly the entries with an index in it. */
  lemma {:induction false} RangeHolds(log: Log, from: nat, to: nat, e: Entry)
    ensures e in InRange(log, from, to) <==> HasWithin(log, from, to, e)
    decreases if from < to then to - from else 0
  {
    if from < to {
      RangeHolds(log, from + 1, to, e);
      if e in InRange(log, from, to) && e !in InRange(log, from + 1, to) {
        assert from in log && log[from] == e;
      }
    }
  }

  /** The table was empty, reached past the purge, or ended exactly at it. */
  predicate ReachesPurge(log: Log, id: LogId) {
    match LastEntry(log)
    case None => true
    case Some(e) => e.logId.index > id.index || e.logId == id
  }

  /** Stopping inside a purge leaves the purged entries in the table. Reads above them
      cannot tell; the reported last entry is the finished purge's if and only if the table
      was empty, reached past the purge, or ended exactly at it. */
  lemma StoppedPurge(disk: Disk, id: LogId, start: nat, to: nat)
    requires start > id.index && Indexed(disk.log)
    ensures var commits := LogCommits(disk, LogOp.Purge(id));
            && InRange(commits[0].log, start, to) == InRange(commits[1].log, start, to)
            && (ReachesPurge(disk.log, id) <==>
                  StateOf(commits[0].log, commits[0].purged) == StateOf(commits[1].log, commits[1].purged))
  {
    hide InRange, LastEntry;
    SameRange(disk.log, Above(disk.log, id.index), start, to);
    LastAbove(disk.log, id.index);
  }

  /** Each entry lies at its own index. */
  ghost predicate Indexed(log: Log) { forall k :: k in log ==> log[k].logId.index == k }

  lemma {:induction false} SameRange(a: Log, b: Log, from: nat, to: nat)
    requires forall k :: k >= from ==> (k in a <==> k in b) && (k in a ==> a[k] == b[k])
    ensures InRange(a, from, to) == InRange(b, from, to)
    decreases if from < to then to - from else 0
  {
    if from < to { SameRange(a, b, from + 1, to); }
  }

  lemma LastAbove(log: Log, index: Index)
    requires Indexed(log)
    ensures match LastEntry(log)
            case None => LastEntry(Above(log, index)) == None
            case Some(e) => LastEntry(Above(log, index)) == if e.logId.index > index then Some(e) else None
  {
    var above := Above(log, index);
    assert forall k :: k in log ==> k < TOP;
    assert forall k :: k in above ==> k in log && above[k] == log[k];
    var last, lastAbove := LastEntry(log), LastEntry(above);
    if last.Some? {
      var e := last.value;
      if e.logId.index > index { assert e.logId.index in above; }
    }
  }

  /** A purge beyond a log that ends at 3, as after a snapshot of a node that fell behind:
      stopped inside, the log reports 3 as its last entry and 10 as purged. */
  lemma StoppedPurgeReportsLess(payload: Payload)
    ensures var e := Entry(LogId(1, 1, 3), payload);
            var disk := NEW_DISK.(log := map[3 := e]);
            var commits := LogCommits(disk, LogOp.Purge(LogId(2, 1, 10)));
            && StateOf(commits[0].log, commits[0].purged) == LogState(Some(LogId(2, 1, 10)), Some(LogId(1, 1, 3)))
            && StateOf(commits[1].log, commits[1].purged) == LogState(Some(LogId(2, 1, 10)), Some(LogId(2, 1, 10)))
  {
    var e := Entry(LogId(1, 1, 3), payload);
    var log: Log := map[3 := e];
    hide LastUnder;
    assert 3 in log && LastUnder(log, TOP) == Some(3);
    assert Above(log, 10) == map[];
    assert LastUnder(map[], TOP).None?;
  }

  /** ... and purging once more finishes it. */
  lemma PurgeAgain(disk: Disk, id: LogId)
    ensures var stopped := LogCommits(disk, LogOp.Purge(id))[0];
            After(stopped, LogCommits(stopped, LogOp.Purge(id))) == After(disk, LogCommits(disk, LogOp.Purge(id)))
  {
  }

  // ------------------------------------------------------------- the state machine

  const NO_RESPONSE := Response(false, 0, 0, 0, 0, None, NoReason)

  function AppliedEntry(p: SmPersist, e: Entry): (SmPersist, Response) {
    match e.payload
    case Blank => (p.(lastApplied := Some(e.logId)), NO_RESPONSE)
    case Normal(req) =>
      var (ledger, resp) := Applied(p.ledger, req);
      (p.(lastApplied := Some(e.logId), ledger := ledger), resp)
    case Membership(members) =>
      (p.(lastApplied := Some(e.logId), membership := StoredMembership(Some(e.logId), members)), NO_RESPONSE)
  }

  function AppliedAll(p: SmPersist, entries: seq<Entry>): SmPersist {
    if entries == [] then p
    else AppliedEntry(AppliedAll(p, entries[..|entries| - 1]), entries[|entries| - 1]).0
  }

  function Responses(p: SmPersist, entries: seq<Entry>): seq<Response> {
    if entries == [] then []
    else
      var front, e := entries[..|entries| - 1], entries[|entries| - 1];
      Responses(p, front) + [AppliedEntry(AppliedAll(p, front), e).1]
  }

  // --------------------------------------------- the state that entries lead to

  /** The requests among the entries. */
  function Requests(entries: seq<Entry>): seq<Request> {
    if entries == [] then []
    else
      var e := entries[|entries| - 1];
      Requests(entries[..|entries| - 1]) + if e.payload.Normal? then [e.payload.req] else []
  }

  /** A stored ledger is one the ledger's own properties speak of: that of the committed
      requests, whatever blanks and membership changes lie between them. */
  lemma {:induction false} LedgerIsReplay(entries: seq<Entry>)
    ensures AppliedAll(NO_STATE, entries).ledger == Replay(EMPTY_BOOKS, Requests(entries)).runs
    decreases |entries|
  {
    hide Applied;
    if entries != [] {
      var front, e := entries[..|entries| - 1], entries[|entries| - 1];
      LedgerIsReplay(front);
      if e.payload.Normal? {
        ReplayLast(EMPTY_BOOKS, Requests(front), e.payload.req);
      } else {
        assert Requests(entries) == Requests(front) + [] == Requests(front);
      }
    }
  }

  lemma {:induction false} ReplayLast(b: Books, log: seq<Request>, req: Request)
    ensures Replay(b, log + [req]).runs == Applied(Replay(b, log).runs, req).0
    decreases |log|
  {
    hide Applied;
    if log == [] {
      assert log + [req] == [req] && [req][1..] == [];
    } else {
      assert (log + [req])[1..] == log[1..] + [req];
      ReplayLast(Ledger.Next(b, log[0]), log[1..], req);
    }
  }

  /** The membership the entries set last, and by which of them. */
  function LastMembership(entries: seq<Entry>): StoredMembership {
    if entries == [] then StoredMembership(None, {})
    else
      var e := entries[|entries| - 1];
      if e.payload.Membership? then StoredMembership(Some(e.logId), e.payload.members)
      else LastMembership(entries[..|entries| - 1])
  }

  /** What a node holds that has applied the entries, each once and in order. */
  function StateThrough(entries: seq<Entry>): SmPersist {
    SmPersist(
      if entries == [] then None else Some(entries[|entries| - 1].logId),
      LastMembership(entries),
      Replay(EMPTY_BOOKS, Requests(entries)).runs)
  }

  /** What the consensus layer is answered for an entry after others. */
  function AnswerAfter(before: seq<Entry>, e: Entry): Response {
    if e.payload.Normal? then Applied(Replay(EMPTY_BOOKS, Requests(before)).runs, e.payload.req).1
    else Response(false, 0, 0, 0, 0, None, NoReason)
  }

  /** One answer an entry, each given after the entries before it. */
  ghost predicate AreAnswered(before: seq<Entry>, entries: seq<Entry>, responses: seq<Response>) {
    |responses| == |entries|
    && forall i :: 0 <= i < |entries| ==> responses[i] == AnswerAfter(before + entries[..i], entries[i])
  }

  /** From what some entries lead to, applying more leads to what all of them do. */
  ghost predicate LeadsOn(p: SmPersist, entries: seq<Entry>, next: SmPersist, responses: seq<Response>) {
    forall before :: p == StateThrough(before) ==>
      next == StateThrough(before + entries) && AreAnswered(before, entries, responses)
  }

  lemma OneMoreEntry(before: seq<Entry>, e: Entry)
    ensures AppliedEntry(StateThrough(before), e) == (StateThrough(before + [e]), AnswerAfter(before, e))
  {
    hide Applied;
    var all := before + [e];
    assert all[..|all| - 1] == before;
    if e.payload.Normal? {
      ReplayLast(EMPTY_BOOKS, Requests(before), e.payload.req);
    } else {
      assert Requests(all) == Requests(before) + [] == Requests(before);
    }
  }

  lemma {:induction false} AppliedLeadsTo(before: seq<Entry>, entries: seq<Entry>)
    ensures AppliedAll(StateThrough(before), entries) == StateThrough(before + entries)
    ensures AreAnswered(before, entries, Responses(StateThrough(before), entries))
    decreases |entries|
  {
    hide AppliedEntry, StateThrough, AnswerAfter;
    if entries == [] {
      assert before + entries == before;
    } else {
      var front, e := entries[..|entries| - 1], entries[|entries| - 1];
      AppliedLeadsTo(before, front);
      OneMoreEntry(before + front, e);
      assert before + entries == before + front + [e];
      assert forall i :: 0 <= i < |front| ==> front[..i] == entries[..i];
    }
  }

  lemma ApplyLeadsOn(p: SmPersist, entries: seq<Entry>)
    ensures LeadsOn(p, entries, AppliedAll(p, entries), Responses(p, entries))
  {
    forall before | p == StateThrough(before)
      ensures AppliedAll(p, entries) == StateThrough(before + entries) && AreAnswered(before, entries, Responses(p, entries))
    {
      AppliedLeadsTo(before, entries);
    }
  }

  // ----------------------------------------------------------- the two state machines

  datatype SmInner = SmInner(persist: SmPersist, snapshot: Option<StoredSnapshot>, snapshotIdx: nat)

  datatype SmOp = Apply(entries: seq<Entry>) | BuildSnapshot | InstallSnapshot(meta: Meta, data: Runs)

  function SnapshotNow(inner: SmInner): StoredSnapshot {
    var p := inner.persist;
    StoredSnapshot(Meta(p.lastApplied, p.membership, SnapshotId(p.lastApplied, inner.snapshotIdx + 1)), p.ledger)
  }

  function SmAfter(inner: SmInner, op: SmOp): SmInner {
    match op
    case Apply(entries) => inner.(persist := AppliedAll(inner.persist, entries))
    case BuildSnapshot => inner.(snapshot := Some(SnapshotNow(inner)), snapshotIdx := inner.snapshotIdx + 1)
    case InstallSnapshot(meta, data) =>
      inner.(persist := SmPersist(meta.lastLogId, meta.membership, data), snapshot := Some(StoredSnapshot(meta, data)))
  }

  class StateMachineStore {
    var lastApplied: Option<LogId>
    var lastMembership: StoredMembership
    const ledger: LedgerState
    var snapshotIdx: nat
    var currentSnapshot: Option<StoredSnapshot>

    ghost function State(): SmInner
      reads this, ledger
    {
      SmInner(SmPersist(lastApplied, lastMembership, ledger.runs), currentSnapshot, snapshotIdx)
    }

    constructor ()
      ensures State() == SmInner(NO_STATE, None, 0) && fresh(ledger)
    {
      lastApplied, lastMembership, snapshotIdx, currentSnapshot := None, StoredMembership(None, {}), 0, None;
      ledger := new LedgerState();
    }

    method Apply(entries: seq<Entry>) returns (responses: seq<Response>)
      modifies this, ledger
      ensures State() == SmAfter(old(State()), SmOp.Apply(entries))
      ensures responses == Responses(old(State().persist), entries)
      ensures LeadsOn(old(State()).persist, entries, State().persist, responses)
    {
      hide LeadsOn;
      ApplyLeadsOn(State().persist, entries);
      responses := [];
      for i := 0 to |entries|
        invariant State() == SmAfter(old(State()), SmOp.Apply(entries[..i]))
        invariant responses == Responses(old(State().persist), entries[..i])
      {
        assert entries[..i + 1][..i] == entries[..i];
        hide Applied;
        var e := entries[i];
        lastApplied := Some(e.logId);
        match e.payload
        case Blank => responses := responses + [NO_RESPONSE];
        case Normal(req) =>
          var resp := ledger.Apply(req);
          responses := responses + [resp];
        case Membership(members) =>
          lastMembership := StoredMembership(Some(e.logId), members);
          responses := responses + [NO_RESPONSE];
      }
      assert entries[..|entries|] == entries;
    }

    method BuildSnapshot() returns (s: StoredSnapshot)
      modifies this
      ensures State() == SmAfter(old(State()), SmOp.BuildSnapshot) && currentSnapshot == Some(s)
      ensures s.meta.lastLogId == lastApplied && s.meta.membership == lastMembership && s.data == ledger.runs
      ensures lastApplied == old(lastApplied) && lastMembership == old(lastMembership) && ledger.runs == old(ledger.runs)
    {
      snapshotIdx := snapshotIdx + 1;
      s := StoredSnapshot(Meta(lastApplied, lastMembership, SnapshotId(lastApplied, snapshotIdx)), ledger.runs);
      currentSnapshot := Some(s);
    }

    method InstallSnapshot(meta: Meta, data: Runs)
      modifies this, ledger
      ensures State() == SmAfter(old(State()), SmOp.InstallSnapshot(meta, data))
      ensures lastApplied == meta.lastLogId && lastMembership == meta.membership && ledger.runs == data
      ensures currentSnapshot == Some(StoredSnapshot(meta, data))
    {
      ledger.runs := data;
      lastApplied := meta.lastLogId;
      lastMembership := meta.membership;
      currentSnapshot := Some(StoredSnapshot(meta, data));
    }
  }

  /** The disks an operation on the state machine commits. Installing is two transactions. */
  function SmCommits(disk: Disk, inner: SmInner, op: SmOp): (commits: seq<Disk>)
    ensures commits != []
  {
    var next := SmAfter(inner, op);
    match op
    case Apply(_) => [disk.(state := Some(next.persist))]
    case BuildSnapshot => [disk.(snapshot := next.snapshot)]
    case InstallSnapshot(_, _) =>
      [disk.(state := Some(next.persist)), disk.(state := Some(next.persist), snapshot := next.snapshot)]
  }

  /** What opening the file loads. */
  function Loaded(disk: Disk): SmInner {
    SmInner(disk.state.GetOr(NO_STATE), disk.snapshot, 0)
  }

  class RedbStateMachineStore {
    const db: Database
    var persist: SmPersist
    var snapshot: Option<StoredSnapshot>
    var snapshotIdx: nat

    ghost function State(): SmInner
      reads this
    {
      SmInner(persist, snapshot, snapshotIdx)
    }

    constructor (db: Database)
      ensures this.db == db && State() == Loaded(db.disk)
    {
      this.db := db;
      persist := if db.disk.state.Some? then db.disk.state.value else NO_STATE;
      snapshot := db.disk.snapshot;
      snapshotIdx := 0;
    }

    /** The file is where the operation leaves it, and has been where it commits. */
    ghost predicate Committed(disk: Disk, commits: seq<Disk>, inner: SmInner, op: SmOp)
      reads db
    {
      db.disk == After(disk, SmCommits(disk, inner, op)) && db.commits == commits + SmCommits(disk, inner, op)
    }

    method Apply(entries: seq<Entry>) returns (responses: seq<Response>)
      modifies this, db
      ensures State() == SmAfter(old(State()), SmOp.Apply(entries))
      ensures responses == Responses(old(persist), entries)
      ensures Committed(old(db.disk), old(db.commits), old(State()), SmOp.Apply(entries))
      ensures LeadsOn(old(persist), entries, persist, responses)
      ensures db.disk == old(db.disk).(state := Some(persist)) && db.commits == old(db.commits) + [db.disk]
    {
      hide Applied, LeadsOn;
      ApplyLeadsOn(persist, entries);
      responses := [];
      for i := 0 to |entries|
        invariant State() == SmAfter(old(State()), SmOp.Apply(entries[..i]))
        invariant responses == Responses(old(persist), entries[..i])
        invariant db.disk == old(db.disk) && db.commits == old(db.commits)
      {
        assert entries[..i + 1][..i] == entries[..i];
        var e := entries[i];
        persist := persist.(lastApplied := Some(e.logId));
        match e.payload
        case Blank => responses := responses + [NO_RESPONSE];
        case Normal(req) =>
          var (ledger, resp) := Applied(persist.ledger, req);
          persist := persist.(ledger := ledger);
          responses := responses + [resp];
        case Membership(members) =>
          persist := persist.(membership := StoredMembership(Some(e.logId), members));
          responses := responses + [NO_RESPONSE];
      }
      assert entries[..|entries|] == entries;
      db.Commit(db.disk.(state := Some(persist)));
    }

    method BuildSnapshot() returns (s: StoredSnapshot)
      modifies this, db
      ensures State() == SmAfter(old(State()), SmOp.BuildSnapshot) && snapshot == Some(s)
      ensures Committed(old(db.disk), old(db.commits), old(State()), SmOp.BuildSnapshot)
      ensures s.meta.lastLogId == persist.lastApplied && s.meta.membership == persist.membership && s.data == persist.ledger
      ensures persist == old(persist) && db.disk == old(db.disk).(snapshot := Some(s))
    {
      snapshotIdx := snapshotIdx + 1;
      var p := persist;
      s := StoredSnapshot(Meta(p.lastApplied, p.membership, SnapshotId(p.lastApplied, snapshotIdx)), p.ledger);
      db.Commit(db.disk.(snapshot := Some(s)));
      snapshot := Some(s);
    }

    method InstallSnapshot(meta: Meta, data: Runs)
      modifies this, db
      ensures State() == SmAfter(old(State()), SmOp.InstallSnapshot(meta, data))
      ensures Committed(old(db.disk), old(db.commits), old(State()), SmOp.InstallSnapshot(meta, data))
      ensures persist == SmPersist(meta.lastLogId, meta.membership, data) && snapshot == Some(StoredSnapshot(meta, data))
      ensures db.disk == old(db.disk).(state := Some(persist), snapshot := snapshot)
    {
      persist := SmPersist(meta.lastLogId, meta.membership, data);
      db.Commit(db.disk.(state := Some(persist)));
      var stored := StoredSnapshot(meta, data);
      db.Commit(db.disk.(snapshot := Some(stored)));
      snapshot := Some(stored);
    }
  }

  // ---------------------------------------------------------------- crash safety

  /** The state is the whole committed log's first `n` entries, applied in order. */
  ghost predicate ExactAt(log: seq<Entry>, p: SmPersist, n: nat) {
    n <= |log| && p == StateThrough(log[..n])
  }

  ghost predicate Exact(log: seq<Entry>, p: SmPersist) {
    exists n: nat :: ExactAt(log, p, n)
  }

  ghost predicate SnapshotExact(log: seq<Entry>, meta: Meta, data: Runs) {
    Exact(log, SmPersist(meta.lastLogId, meta.membership, data))
  }

  datatype Node = Node(disk: Disk, mem: SmInner)

  /** `Completes`: an operation runs to its end. `Stops`: the process ends after `kept` of
      its transactions, and opens the file again. `Fails`: the transaction after `kept` of
      them fails, and the process goes on with an error. */
  datatype Step = Completes(op: SmOp) | Stops(op: SmOp, kept: nat) | Fails(op: SmOp, kept: nat)

  function Kept(disk: Disk, commits: seq<Disk>, kept: nat): Disk {
    After(disk, if kept <= |commits| then commits[..kept] else commits)
  }

  /** What an operation leaves in memory when a transaction of its fails: the state it had
      already changed, and the snapshot it had not. */
  function SmFailed(inner: SmInner, op: SmOp): SmInner {
    SmAfter(inner, op).(snapshot := inner.snapshot)
  }

  function Next(node: Node, step: Step): Node {
    var commits := SmCommits(node.disk, node.mem, step.op);
    match step
    case Completes(op) => Node(After(node.disk, commits), SmAfter(node.mem, op))
    case Stops(op, kept) => Node(Kept(node.disk, commits, kept), Loaded(Kept(node.disk, commits, kept)))
    case Fails(op, kept) =>
      Node(Kept(node.disk, commits, if kept < |commits| then kept else |commits| - 1), SmFailed(node.mem, op))
  }

  /** What the consensus layer hands over: the entries after the applied ones, in order, and
      snapshots other nodes made of the same log. */
  ghost predicate Offered(log: seq<Entry>, node: Node, op: SmOp) {
    match op
    case Apply(entries) =>
      exists n: nat :: ExactAt(log, node.mem.persist, n) && n + |entries| <= |log| && entries == log[n..n + |entries|]
    case BuildSnapshot => true
    case InstallSnapshot(meta, data) => SnapshotExact(log, meta, data)
  }

  ghost predicate NoneOrExact(log: seq<Entry>, snapshot: Option<StoredSnapshot>) {
    snapshot.Some? ==> SnapshotExact(log, snapshot.value.meta, snapshot.value.data)
  }

  /** The states in memory and on file are exact for the log, and so are the snapshots. */
  ghost predicate Safe(log: seq<Entry>, node: Node) {
    && Exact(log, node.mem.persist) && Exact(log, node.disk.state.GetOr(NO_STATE))
    && NoneOrExact(log, node.mem.snapshot) && NoneOrExact(log, node.disk.snapshot)
  }

  /** Memory and file hold one state and one snapshot. */
  predicate Synced(node: Node) {
    node.mem.persist == node.disk.state.GetOr(NO_STATE) && node.mem.snapshot == node.disk.snapshot
  }

  lemma ApplyKeepsExact(log: seq<Entry>, p: SmPersist, n: nat, entries: seq<Entry>)
    requires ExactAt(log, p, n) && n + |entries| <= |log| && entries == log[n..n + |entries|]
    ensures ExactAt(log, AppliedAll(p, entries), n + |entries|)
  {
    hide StateThrough;
    assert log[..n + |entries|] == log[..n] + entries;
    AppliedLeadsTo(log[..n], entries);
  }

  /** One operation that completes, stops anywhere and is opened again, or fails anywhere and
      goes on. Memory and file are one again after every stop, and stay one while nothing
      fails; after a failure the next batch that completes writes the whole state. */
  lemma StepIsSafe(log: seq<Entry>, node: Node, step: Step)
    requires Safe(log, node) && Offered(log, node, step.op)
    ensures Safe(log, Next(node, step))
    ensures step.Stops? || (step.Completes? && Synced(node)) ==> Synced(Next(node, step))
    ensures step.Completes? && step.op.Apply? ==>
              Next(node, step).disk.state == Some(Next(node, step).mem.persist)
  {
    hide AppliedAll, ExactAt;
    match step.op
    case Apply(entries) =>
      var n: nat :| ExactAt(log, node.mem.persist, n) && n + |entries| <= |log| && entries == log[n..n + |entries|];
      ApplyKeepsExact(log, node.mem.persist, n, entries);
    case BuildSnapshot =>
    case InstallSnapshot(meta, data) =>
  }

  function Run(node: Node, steps: seq<Step>): Node
    decreases |steps|
  {
    if steps == [] then node else Run(Next(node, steps[0]), steps[1..])
  }

  ghost predicate OfferedRun(log: seq<Entry>, node: Node, steps: seq<Step>)
    decreases |steps|
  {
    steps == [] || (Offered(log, node, steps[0].op) && OfferedRun(log, Next(node, steps[0]), steps[1..]))
  }

  /** However often the process stops or a transaction fails, and at whichever: the stored
      ledger is always the committed log applied once, in order, up to some entry, and the
      stored snapshot is exact for its own. */
  lemma {:induction false} RunsAreSafe(log: seq<Entry>, node: Node, steps: seq<Step>)
    requires Safe(log, node) && OfferedRun(log, node, steps)
    ensures Safe(log, Run(node, steps))
    decreases |steps|
  {
    if steps != [] {
      hide Safe, Offered, Next;
      StepIsSafe(log, node, steps[0]);
      RunsAreSafe(log, Next(node, steps[0]), steps[1..]);
    }
  }

  lemma NewNodeIsSafe(log: seq<Entry>)
    ensures Safe(log, Node(NEW_DISK, Loaded(NEW_DISK))) && Synced(Node(NEW_DISK, Loaded(NEW_DISK)))
    ensures IsAt(log, Node(NEW_DISK, Loaded(NEW_DISK)), Place(0, 0))
  {
    assert log[..0] == [];
    assert ExactAt(log, NO_STATE, 0);
  }

  // ------------------------------------------------------------------- progress

  /** How far a node has come in the committed log, in memory and in the file. */
  datatype Place = Place(mem: nat, file: nat)

  /** Where a step takes a node; `at` is where a snapshot to be installed is. An operation that
      ends without an error reaches the file as far as memory; one whose process stops goes back
      to the file as its transactions left it; one that fails leaves the file behind. */
  function Moved(place: Place, step: Step, at: nat): Place {
    var to := match step.op
      case Apply(entries) => place.mem + |entries|
      case BuildSnapshot => place.mem
      case InstallSnapshot(_, _) => at;
    var stored := if step.op.BuildSnapshot? then place.file else to;
    match step
    case Completes(_) => Place(to, stored)
    case Stops(_, kept) => if kept == 0 then Place(place.file, place.file) else Place(stored, stored)
    case Fails(op, kept) => Place(to, if op.InstallSnapshot? && kept > 0 then at else place.file)
  }

  ghost predicate IsAt(log: seq<Entry>, node: Node, place: Place) {
    ExactAt(log, node.mem.persist, place.mem) && ExactAt(log, node.disk.state.GetOr(NO_STATE), place.file)
  }

  /** What is offered at a place: the entries after it, and snapshots of where they say. */
  ghost predicate OfferedAt(log: seq<Entry>, place: Place, op: SmOp, at: nat) {
    match op
    case Apply(entries) => place.mem + |entries| <= |log| && entries == log[place.mem..place.mem + |entries|]
    case BuildSnapshot => true
    case InstallSnapshot(meta, data) => ExactAt(log, SmPersist(meta.lastLogId, meta.membership, data), at)
  }

  /** Every step takes the node there and nowhere else. */
  lemma StepMoves(log: seq<Entry>, node: Node, step: Step, place: Place, at: nat)
    requires IsAt(log, node, place) && OfferedAt(log, place, step.op, at)
    ensures IsAt(log, Next(node, step), Moved(place, step, at))
  {
    hide AppliedAll, ExactAt;
    if step.op.Apply? {
      ApplyKeepsExact(log, node.mem.persist, place.mem, step.op.entries);
    }
  }

  /** A snapshot built is of the memory's place and names its last entry; one that is built or
      installed is in memory once the operation has ended, and in the file once its own
      transaction has; until then the one before is. */
  lemma StepSnapshots(node: Node, step: Step, s: StoredSnapshot)
    requires match step.op
             case Apply(_) => false
             case BuildSnapshot =>
               && s.meta.lastLogId == node.mem.persist.lastApplied && s.meta.membership == node.mem.persist.membership
               && s.data == node.mem.persist.ledger && s.meta.id == SnapshotId(s.meta.lastLogId, node.mem.snapshotIdx + 1)
             case InstallSnapshot(meta, data) => s == StoredSnapshot(meta, data)
    ensures var next, last := Next(node, step), if step.op.BuildSnapshot? then 1 else 2;
            match step
            case Completes(_) =>
              && next.mem.snapshot == next.disk.snapshot == Some(s)
              && next.mem.snapshotIdx == node.mem.snapshotIdx + if step.op.BuildSnapshot? then 1 else 0
            case Stops(_, kept) =>
              next.mem.snapshot == next.disk.snapshot == if kept >= last then Some(s) else node.disk.snapshot
            case Fails(_, _) => next.mem.snapshot == node.mem.snapshot && next.disk.snapshot == node.disk.snapshot
  {
  }

  /** And applying leaves the snapshots alone. */
  lemma ApplyLeavesSnapshots(node: Node, step: Step)
    requires step.op.Apply?
    ensures var next := Next(node, step);
            && next.disk.snapshot == node.disk.snapshot
            && next.mem.snapshot == if step.Stops? then node.disk.snapshot else node.mem.snapshot
  {
  }

  /** The place after a whole run; `at` are where its snapshots are. */
  function MovedAll(place: Place, steps: seq<Step>, at: seq<nat>): Place
    requires |at| == |steps|
    decreases |steps|
  {
    if steps == [] then place else MovedAll(Moved(place, steps[0], at[0]), steps[1..], at[1..])
  }

  ghost predicate OfferedRunAt(log: seq<Entry>, place: Place, steps: seq<Step>, at: seq<nat>)
    requires |at| == |steps|
    decreases |steps|
  {
    steps == []
    || (OfferedAt(log, place, steps[0].op, at[0]) && OfferedRunAt(log, Moved(place, steps[0], at[0]), steps[1..], at[1..]))
  }

  /** Over any run, with stops and failures anywhere, no entry is lost and none applied twice:
      memory and file are at exactly these places in the log. */
  lemma {:induction false} RunsMove(log: seq<Entry>, node: Node, steps: seq<Step>, place: Place, at: seq<nat>)
    requires |at| == |steps| && IsAt(log, node, place) && OfferedRunAt(log, place, steps, at)
    ensures IsAt(log, Run(node, steps), MovedAll(place, steps, at))
    decreases |steps|
  {
    if steps != [] {
      hide IsAt, OfferedAt, Next, Moved;
      StepMoves(log, node, steps[0], place, at[0]);
      RunsMove(log, Next(node, steps[0]), steps[1..], Moved(place, steps[0], at[0]), at[1..]);
    }
  }

  /** The entries whose batches were committed. */
  function CommittedEntries(steps: seq<Step>): nat {
    if steps == [] then 0
    else
      var last := steps[|steps| - 1];
      CommittedEntries(steps[..|steps| - 1])
      + if last.op.Apply? && (last.Completes? || (last.Stops? && last.kept > 0)) then |last.op.entries| else 0
  }

  lemma {:induction false} MovedOneMore(place: Place, steps: seq<Step>, at: seq<nat>)
    requires |at| == |steps| && steps != []
    ensures MovedAll(place, steps, at)
         == Moved(MovedAll(place, steps[..|steps| - 1], at[..|at| - 1]), steps[|steps| - 1], at[|at| - 1])
    decreases |steps|
  {
    hide Moved;
    if |steps| == 1 {
      assert steps[..0] == [] && at[..0] == [] && steps[1..] == [] && at[1..] == [];
    } else {
      assert steps[1..][..|steps| - 2] == steps[..|steps| - 1][1..] && at[1..][..|at| - 2] == at[..|at| - 1][1..];
      MovedOneMore(Moved(place, steps[0], at[0]), steps[1..], at[1..]);
    }
  }

  /** From a place where both are one, as after an install or a start, and while no transaction
      fails, the file is as far on as the batches committed since. */
  lemma {:induction false} CommittedBatchesAddUp(place: Place, steps: seq<Step>, at: seq<nat>)
    requires |at| == |steps| && place.mem == place.file
    requires forall k :: 0 <= k < |steps| ==> !steps[k].Fails? && !steps[k].op.InstallSnapshot?
    ensures MovedAll(place, steps, at) == Place(place.file + CommittedEntries(steps), place.file + CommittedEntries(steps))
    decreases |steps|
  {
    if steps != [] {
      CommittedBatchesAddUp(place, steps[..|steps| - 1], at[..|at| - 1]);
      MovedOneMore(place, steps, at);
    }
  }

  ghost predicate DistinctIds(log: seq<Entry>) {
    forall i, j :: 0 <= i < j < |log| ==> log[i].logId != log[j].logId
  }

  lemma LastAppliedIs(log: seq<Entry>, p: SmPersist, n: nat)
    requires ExactAt(log, p, n)
    ensures p.lastApplied == if n == 0 then None else Some(log[n - 1].logId)
  {
  }

  /** Where ids do not repeat, the stored last id says which entries those are: any two
      nodes, or a node and a snapshot, that name one last id hold one ledger. */
  lemma LastAppliedFixesTheLedger(log: seq<Entry>, p: SmPersist, q: SmPersist)
    requires DistinctIds(log) && Exact(log, p) && Exact(log, q) && p.lastApplied == q.lastApplied
    ensures p == q
  {
    hide AppliedAll;
    var n: nat :| ExactAt(log, p, n);
    var m: nat :| ExactAt(log, q, m);
    LastAppliedIs(log, p, n);
    LastAppliedIs(log, q, m);
  }
}
