/** The replicated, hierarchical budget ledger (crates/cluster/src/types.rs).

    `LedgerState` is the mutable state machine. `Applied` is the meaning of one
    log entry as a function of the map of runs, and everything below it is proved
    about that function: what a reserve checks, and what a whole committed log
    keeps. */
module Ledger {
  import opened Wrappers

  const U64_MAX: nat := 0xFFFF_FFFF_FFFF_FFFF
  const U32_MODULUS: nat := 0x1_0000_0000
  // MAX_CHAIN_DEPTH of the source.
  const MAX_CHAIN_DEPTH: nat := 64

  type u64 = n: nat | n <= U64_MAX
  type u32 = n: nat | n < U32_MODULUS
  type RunId = string

  function SatAdd(a: u64, b: u64): u64 {
    if a + b > U64_MAX then U64_MAX else a + b
  }

  function SatSub(a: u64, b: u64): u64 {
    if a < b then 0 else a - b
  }

  datatype RunState = RunState(budget: u64, reserved: u64, spent: u64, steps: u32, parent: Option<RunId>) {
    function Committed(): u64 { SatAdd(spent, reserved) }
  }

  const FRESH_RUN := RunState(0, 0, 0, 0, None)

  type Runs = map<RunId, RunState>

  datatype Request =
    | Open(run: RunId, budget: u64, parent: Option<RunId>)
    | Reserve(run: RunId, micros: u64)
    | Settle(run: RunId, held: u64, actual: u64)

  /** The free-text reason of a refusal, as data. */
  datatype Reason = NoReason | UnknownRun(run: RunId) | BudgetExceeded(run: RunId, need: u64, budget: u64)

  datatype Response = Response(
    accepted: bool, spent: u64, reserved: u64, budget: u64, step: u32,
    blocked: Option<RunId>, reason: Reason)

  // ---------------------------------------------------------------- the chain

  /** The ids a run's reservations are charged to, leaf first. */
  function Chain(runs: Runs, run: RunId): seq<RunId> {
    ChainFrom(runs, Some(run), [])
  }

  function ChainFrom(runs: Runs, cur: Option<RunId>, ids: seq<RunId>): seq<RunId>
    decreases MAX_CHAIN_DEPTH - |ids|
  {
    if cur.None? || cur.value in ids || |ids| >= MAX_CHAIN_DEPTH || cur.value !in runs then ids
    else ChainFrom(runs, runs[cur.value].parent, ids + [cur.value])
  }

  ghost predicate Distinct(ids: seq<RunId>) {
    forall i, j :: 0 <= i < j < |ids| ==> ids[i] != ids[j]
  }

  /** `ids` is the ancestor walk of `run`: it starts at the run, each id is the
      parent of the one before, no id comes twice, at most 64 ids, and it stops only
      where the walk has to: no parent, an unknown one, one met before, or the depth. */
  ghost predicate IsWalk(runs: Runs, run: RunId, ids: seq<RunId>) {
    && Distinct(ids)
    && |ids| <= 64
    && (forall k :: 0 <= k < |ids| ==> ids[k] in runs)
    && (forall k :: 0 < k < |ids| ==> runs[ids[k - 1]].parent == Some(ids[k]))
    && (if run !in runs then ids == [] else
          && ids != [] && ids[0] == run
          && var last := runs[ids[|ids| - 1]].parent;
             last.None? || last.value !in runs || last.value in ids || |ids| == 64)
  }

  /** What the walk's loop keeps: the ids so far, and where it stands. */
  ghost predicate IsPartialWalk(runs: Runs, run: RunId, cur: Option<RunId>, ids: seq<RunId>) {
    && Distinct(ids)
    && |ids| <= MAX_CHAIN_DEPTH
    && (forall k :: 0 <= k < |ids| ==> ids[k] in runs)
    && (forall k :: 0 < k < |ids| ==> runs[ids[k - 1]].parent == Some(ids[k]))
    && (ids == [] ==> cur == Some(run))
    && (ids != [] ==> ids[0] == run && cur == runs[ids[|ids| - 1]].parent)
  }

  lemma {:induction false} ChainFromIsWalk(runs: Runs, run: RunId, cur: Option<RunId>, ids: seq<RunId>)
    requires IsPartialWalk(runs, run, cur, ids)
    ensures IsWalk(runs, run, ChainFrom(runs, cur, ids))
    decreases MAX_CHAIN_DEPTH - |ids|
  {
    if cur.None? || cur.value in ids || |ids| >= MAX_CHAIN_DEPTH || cur.value !in runs {
    } else {
      ChainFromIsWalk(runs, run, runs[cur.value].parent, ids + [cur.value]);
    }
  }

  /** On every state, cyclic ones included, the chain is the ancestor walk. */
  lemma ChainIsWalk(runs: Runs, run: RunId)
    ensures IsWalk(runs, run, Chain(runs, run))
  {
    ChainFromIsWalk(runs, run, Some(run), []);
  }

  /** ... and there is only one walk, so `IsWalk` fixes the chain. */
  lemma {:induction false} WalkIsUnique(runs: Runs, run: RunId, a: seq<RunId>, b: seq<RunId>)
    requires IsWalk(runs, run, a) && IsWalk(runs, run, b)
    ensures a == b
  {
    var n := 0;
    while n < |a| && n < |b|
      invariant n <= |a| && n <= |b| && a[..n] == b[..n]
      decreases |a| - n
    {
      if n > 0 { assert a[n - 1] == a[..n][n - 1] == b[..n][n - 1] == b[n - 1]; }
      assert a[n] == b[n];
      assert a[..n + 1] == a[..n] + [a[n]] && b[..n + 1] == b[..n] + [b[n]];
      n := n + 1;
    }
    assert n == |a| ==> a[..n] == a;
    assert n == |b| ==> b[..n] == b;
    WalkCannotGoOn(runs, run, a, b);
    WalkCannotGoOn(runs, run, b, a);
  }

  lemma WalkStep(runs: Runs, run: RunId, ids: seq<RunId>, n: nat)
    requires IsWalk(runs, run, ids) && 0 < n < |ids|
    ensures var last := runs[ids[n - 1]].parent;
            last.Some? && last.value in runs && last.value !in ids[..n] && n < MAX_CHAIN_DEPTH
  {
    assert runs[ids[n - 1]].parent == Some(ids[n]);
  }

  lemma WalkCannotGoOn(runs: Runs, run: RunId, a: seq<RunId>, b: seq<RunId>)
    requires IsWalk(runs, run, a) && IsWalk(runs, run, b)
    ensures a <= b ==> a == b
  {
    if run in runs && a <= b && |a| < |b| {
      WalkStep(runs, run, b, |a|);
      assert false;
    }
  }

  // -------------------------------------------------- the meaning of one entry

  function Charged(runs: Runs, ids: seq<RunId>, micros: u64): Runs {
    map id | id in runs :: if id in ids
      then runs[id].(reserved := SatAdd(runs[id].reserved, micros)) else runs[id]
  }

  function Released(runs: Runs, ids: seq<RunId>, held: u64, actual: u64): Runs {
    map id | id in runs :: if id in ids
      then runs[id].(reserved := SatSub(runs[id].reserved, held), spent := SatAdd(runs[id].spent, actual))
      else runs[id]
  }

  function Stepped(runs: Runs, run: RunId): Runs
    requires run in runs
  {
    runs[run := runs[run].(steps := (runs[run].steps + 1) % U32_MODULUS)]
  }

  predicate Exceeds(s: RunState, micros: u64) { SatAdd(s.Committed(), micros) > s.budget }

  /** The first level of `ids` whose budget the reserve would pass, or `|ids|`. */
  function FirstExceeded(runs: Runs, ids: seq<RunId>, micros: u64): (k: nat)
    requires forall id :: id in ids ==> id in runs
    ensures k <= |ids|
    ensures forall j :: 0 <= j < k ==> !Exceeds(runs[ids[j]], micros)
    ensures k < |ids| ==> Exceeds(runs[ids[k]], micros)
  {
    if ids == [] then 0
    else if Exceeds(runs[ids[0]], micros) then 0
    else 1 + FirstExceeded(runs, ids[1..], micros)
  }

  function LeafResponse(runs: Runs, run: RunId, accepted: bool): Response {
    var s := if run in runs then runs[run] else FRESH_RUN;
    Response(accepted, s.spent, s.reserved, s.budget, s.steps, None, NoReason)
  }

  function Applied(runs: Runs, req: Request): (Runs, Response) {
    match req
    case Open(run, budget, parent) =>
      var next := if run in runs then runs[run := runs[run].(budget := budget)]
                  else runs[run := RunState(budget, 0, 0, 0, parent)];
      (next, LeafResponse(next, run, true))
    case Reserve(run, micros) =>
      if run !in runs then
        (runs, LeafResponse(runs, run, false).(blocked := Some(run), reason := UnknownRun(run)))
      else
        var ids := Chain(runs, run);
        ChainIsWalk(runs, run);
        var k := FirstExceeded(runs, ids, micros);
        if k < |ids| then
          var s := runs[ids[k]];
          (runs, Response(false, s.spent, s.reserved, s.budget, runs[run].steps, Some(ids[k]),
                          BudgetExceeded(ids[k], SatAdd(s.Committed(), micros), s.budget)))
        else
          var next := Stepped(Charged(runs, ids, micros), run);
          (next, LeafResponse(next, run, true))
    case Settle(run, held, actual) =>
      var next := Released(runs, Chain(runs, run), held, actual);
      (next, LeafResponse(next, run, true))
  }

  // ------------------------------------------------------ the mutable machine

  class LedgerState {
    var runs: Runs

    constructor ()
      ensures runs == map[]
    {
      runs := map[];
    }

    method ChainOf(run: RunId) returns (ids: seq<RunId>)
      ensures ids == Chain(runs, run)
      ensures IsWalk(runs, run, ids)
    {
      ids := [];
      var cur := Some(run);
      while cur.Some?
        invariant IsPartialWalk(runs, run, cur, ids)
        invariant ChainFrom(runs, cur, ids) == Chain(runs, run)
        decreases MAX_CHAIN_DEPTH - |ids|, cur.Some?
      {
        var id := cur.value;
        if id in ids || |ids| >= MAX_CHAIN_DEPTH {
          break;
        }
        if id in runs {
          var parent := runs[id].parent;
          ids := ids + [id];
          cur := parent;
        } else {
          break;
        }
      }
      ChainIsWalk(runs, run);
    }

    method Apply(req: Request) returns (resp: Response)
      modifies this
      ensures (runs, resp) == Applied(old(runs), req)
      ensures IsApplied(old(runs), req, runs, resp)
    {
      hide IsApplied;
      AppliedIs(runs, req);
      match req
      case Open(run, budget, parent) =>
        if run in runs {
          runs := runs[run := runs[run].(budget := budget)];
        } else {
          runs := runs[run := RunState(budget, 0, 0, 0, parent)];
        }
        resp := LeafResponse(runs, run, true);
      case Reserve(run, micros) =>
        if run !in runs {
          resp := LeafResponse(runs, run, false).(blocked := Some(run), reason := UnknownRun(run));
          return;
        }
        var ids := ChainOf(run);
        // Check every level first.
        var k := CheckLevels(ids, micros);
        if k < |ids| {
          var s := runs[ids[k]];
          resp := Response(false, s.spent, s.reserved, s.budget, runs[run].steps, Some(ids[k]),
                           BudgetExceeded(ids[k], SatAdd(s.Committed(), micros), s.budget));
          return;
        }
        // Then apply to every level; steps count on the leaf only.
        ChargeLevels(ids, micros);
        runs := Stepped(runs, run);
        resp := LeafResponse(runs, run, true);
      case Settle(run, held, actual) =>
        var ids := ChainOf(run);
        ReleaseLevels(ids, held, actual);
        resp := LeafResponse(runs, run, true);
    }

    method CheckLevels(ids: seq<RunId>, micros: u64) returns (k: nat)
      requires forall id :: id in ids ==> id in runs
      ensures k == FirstExceeded(runs, ids, micros)
    {
      k := 0;
      while k < |ids|
        invariant k <= FirstExceeded(runs, ids, micros)
      {
        var s := runs[ids[k]];
        if SatAdd(s.Committed(), micros) > s.budget {
          return;
        }
        k := k + 1;
      }
    }

    method ChargeLevels(ids: seq<RunId>, micros: u64)
      requires Distinct(ids) && forall id :: id in ids ==> id in runs
      modifies this
      ensures runs == Charged(old(runs), ids, micros)
    {
      for k := 0 to |ids|
        invariant runs == Charged(old(runs), ids[..k], micros)
      {
        assert ids[k] !in ids[..k] && ids[..k + 1] == ids[..k] + [ids[k]];
        var s := runs[ids[k]];
        runs := runs[ids[k] := s.(reserved := SatAdd(s.reserved, micros))];
      }
      assert ids[..|ids|] == ids;
    }

    method ReleaseLevels(ids: seq<RunId>, held: u64, actual: u64)
      requires Distinct(ids)
      modifies this
      ensures runs == Released(old(runs), ids, held, actual)
    {
      for k := 0 to |ids|
        invariant runs == Released(old(runs), ids[..k], held, actual)
      {
        assert ids[k] !in ids[..k] && ids[..k + 1] == ids[..k] + [ids[k]];
        if ids[k] in runs {
          var s := runs[ids[k]];
          runs := runs[ids[k] := s.(reserved := SatSub(s.reserved, held), spent := SatAdd(s.spent, actual))];
        }
      }
      assert ids[..|ids|] == ids;
    }
  }

  // ------------------------------------------------------ what one entry does

  /** The reply reports the run's counters. */
  predicate Echoes(resp: Response, s: RunState) {
    resp.spent == s.spent && resp.reserved == s.reserved && resp.budget == s.budget
  }

  function Capped(n: nat): u64 { if n < 0x1_0000_0000_0000_0000 then n else 0xFFFF_FFFF_FFFF_FFFF }

  /** A level has no room: the exact sum, held at the largest u64, passes its ceiling. */
  predicate NoRoom(s: RunState, micros: u64) { Capped(s.spent + s.reserved + micros) > s.budget }

  /** The runs are the same but for those of `ids`. */
  ghost predicate OnlyAt(ids: seq<RunId>, runs: Runs, next: Runs) {
    next.Keys == runs.Keys && forall id :: id in runs && id !in ids ==> next[id] == runs[id]
  }

  /** An entry and its reply, of the ancestor walk alone. Opening sets the ceiling, and of a new
      run the parent. */
  ghost predicate IsOpened(runs: Runs, run: RunId, budget: u64, parent: Option<RunId>, next: Runs, resp: Response) {
    && next.Keys == runs.Keys + {run} && (forall id :: id in runs && id != run ==> next[id] == runs[id])
    && next[run] == (if run in runs then runs[run].(budget := budget) else RunState(budget, 0, 0, 0, parent))
    && resp.accepted && Echoes(resp, next[run]) && resp.step == next[run].steps
    && resp.blocked == None && resp.reason == NoReason
  }

  /** A reserve is charged to every level and counted at the leaf, if every level has room; if
      not, nothing changes, and the reply is about the first level that has none. */
  ghost predicate IsReserved(runs: Runs, run: RunId, micros: u64, ids: seq<RunId>, next: Runs, resp: Response) {
    if run !in runs then
      && next == runs && !resp.accepted && Echoes(resp, RunState(0, 0, 0, 0, None)) && resp.step == 0
      && resp.blocked == Some(run) && resp.reason == UnknownRun(run)
    else if resp.accepted then
      && (forall id :: id in ids ==> id in runs && !NoRoom(runs[id], micros))
      && OnlyAt(ids, runs, next)
      && (forall id :: id in ids ==> id in runs && id in next && IsCharged(runs[id], micros, id == run, next[id]))
      && run in next && Echoes(resp, next[run]) && resp.step == next[run].steps && resp.blocked == None && resp.reason == NoReason
    else
      next == runs && exists k :: 0 <= k < |ids| && IsRefused(runs, run, micros, ids, k, resp)
  }

  ghost predicate IsCharged(s: RunState, micros: u64, leaf: bool, t: RunState) {
    && t.budget == s.budget && t.spent == s.spent && t.parent == s.parent
    && t.reserved == Capped(s.reserved + micros)
    && t.steps == if !leaf then s.steps else if s.steps == 0xFFFF_FFFF then 0 else s.steps + 1
  }

  ghost predicate IsRefused(runs: Runs, run: RunId, micros: u64, ids: seq<RunId>, k: nat, resp: Response)
    requires k < |ids| && run in runs
  {
    && (forall j :: 0 <= j <= k ==> ids[j] in runs)
    && NoRoom(runs[ids[k]], micros) && (forall j :: 0 <= j < k ==> !NoRoom(runs[ids[j]], micros))
    && var s := runs[ids[k]];
       && Echoes(resp, s) && resp.step == runs[run].steps && resp.blocked == Some(ids[k])
       && resp.reason == BudgetExceeded(ids[k], Capped(s.spent + s.reserved + micros), s.budget)
  }

  /** A settle gives back the hold at every level, down to nothing, and adds what was spent. */
  ghost predicate IsSettled(runs: Runs, run: RunId, held: u64, actual: u64, ids: seq<RunId>, next: Runs, resp: Response) {
    && OnlyAt(ids, runs, next)
    && (forall id :: id in ids ==> id in runs && id in next && IsReleased(runs[id], held, actual, next[id]))
    && resp.accepted && resp.blocked == None && resp.reason == NoReason
    && var s := if run in next then next[run] else RunState(0, 0, 0, 0, None); Echoes(resp, s) && resp.step == s.steps
  }

  ghost predicate IsReleased(s: RunState, held: u64, actual: u64, t: RunState) {
    && t.budget == s.budget && t.parent == s.parent && t.steps == s.steps
    && t.spent == Capped(s.spent + actual)
    && t.reserved == if held <= s.reserved then s.reserved - held else 0
  }

  ghost predicate IsApplied(runs: Runs, req: Request, next: Runs, resp: Response) {
    match req
    case Open(run, budget, parent) => IsOpened(runs, run, budget, parent, next, resp)
    case Reserve(run, micros) => forall ids :: IsWalk(runs, run, ids) ==> IsReserved(runs, run, micros, ids, next, resp)
    case Settle(run, held, actual) => forall ids :: IsWalk(runs, run, ids) ==> IsSettled(runs, run, held, actual, ids, next, resp)
  }

  /** Every entry changes the runs and answers so. */
  lemma AppliedIs(runs: Runs, req: Request)
    ensures var (next, resp) := Applied(runs, req); IsApplied(runs, req, next, resp)
  {
    hide Applied, IsWalk;
    ChainIsWalk(runs, req.run);
    forall ids | IsWalk(runs, req.run, ids) ensures ids == Chain(runs, req.run) {
      WalkIsUnique(runs, req.run, ids, Chain(runs, req.run));
    }
    match req
    case Open(run, budget, parent) => OpenedIs(runs, run, budget, parent);
    case Reserve(run, micros) => ReservedIs(runs, run, micros);
    case Settle(run, held, actual) => SettledIs(runs, run, held, actual);
  }

  lemma OpenedIs(runs: Runs, run: RunId, budget: u64, parent: Option<RunId>)
    ensures var (next, resp) := Applied(runs, Open(run, budget, parent)); IsOpened(runs, run, budget, parent, next, resp)
  {
  }

  lemma NoRoomIs(s: RunState, micros: u64)
    ensures Exceeds(s, micros) <==> NoRoom(s, micros)
    ensures SatAdd(s.Committed(), micros) == Capped(s.spent + s.reserved + micros)
  {
  }

  lemma FirstWithoutRoom(runs: Runs, ids: seq<RunId>, micros: u64)
    requires forall id :: id in ids ==> id in runs
    ensures var k := FirstExceeded(runs, ids, micros);
            && (forall j :: 0 <= j < k ==> !NoRoom(runs[ids[j]], micros))
            && (k < |ids| ==> NoRoom(runs[ids[k]], micros))
            && (k == |ids| ==> forall id :: id in ids ==> !NoRoom(runs[id], micros))
  {
    hide Exceeds, NoRoom;
    var k := FirstExceeded(runs, ids, micros);
    forall j | 0 <= j < |ids| ensures Exceeds(runs[ids[j]], micros) <==> NoRoom(runs[ids[j]], micros) {
      NoRoomIs(runs[ids[j]], micros);
    }
  }

  lemma ReservedIs(runs: Runs, run: RunId, micros: u64)
    ensures var (next, resp) := Applied(runs, Reserve(run, micros));
            IsReserved(runs, run, micros, Chain(runs, run), next, resp)
  {
    hide Chain, NoRoom, FirstExceeded, IsCharged, OnlyAt;
    ChainIsWalk(runs, run);
    if run in runs {
      var ids := Chain(runs, run);
      FirstWithoutRoom(runs, ids, micros);
      var k := FirstExceeded(runs, ids, micros);
      if k < |ids| {
        RefusedIs(runs, run, micros, ids, k);
      } else {
        ChargedIs(runs, run, micros, ids);
      }
    }
  }

  lemma RefusedIs(runs: Runs, run: RunId, micros: u64, ids: seq<RunId>, k: nat)
    requires run in runs && ids == Chain(runs, run) && k < |ids| && forall id :: id in ids ==> id in runs
    requires k == FirstExceeded(runs, ids, micros)
    ensures IsRefused(runs, run, micros, ids, k, Applied(runs, Reserve(run, micros)).1)
  {
    hide Chain, NoRoom, FirstExceeded;
    FirstWithoutRoom(runs, ids, micros);
    NoRoomIs(runs[ids[k]], micros);
  }

  lemma ChargedIs(runs: Runs, run: RunId, micros: u64, ids: seq<RunId>)
    requires run in runs && run in ids && forall id :: id in ids ==> id in runs
    ensures var next := Stepped(Charged(runs, ids, micros), run);
            OnlyAt(ids, runs, next)
            && forall id :: id in ids ==> id in runs && id in next && IsCharged(runs[id], micros, id == run, next[id])
  {
  }

  lemma SettledIs(runs: Runs, run: RunId, held: u64, actual: u64)
    ensures var (next, resp) := Applied(runs, Settle(run, held, actual));
            IsSettled(runs, run, held, actual, Chain(runs, run), next, resp)
  {
    hide Chain;
    ChainIsWalk(runs, run);
  }

  // ------------------------------------------------------------ one reserve

  /** A level fits when the exact sum stays under its ceiling, or the ceiling is the
      largest u64: saturation then hides any excess. */
  ghost predicate Fits(s: RunState, micros: u64) {
    s.spent + s.reserved + micros <= s.budget || s.budget == U64_MAX
  }

  /** A reserve is accepted exactly when its run is known and every level fits; a
      refused one changes nothing and names the first level that does not fit. */
  lemma ReserveIsAllOrNothing(runs: Runs, run: RunId, micros: u64)
    ensures var ids := Chain(runs, run);
            var (next, resp) := Applied(runs, Reserve(run, micros));
            && (resp.accepted <==> run in runs && forall id :: id in ids ==> id in runs && Fits(runs[id], micros))
            && (!resp.accepted ==> next == runs && resp.blocked.Some?)
            && (!resp.accepted && run in runs ==>
                  exists k :: 0 <= k < |ids| && resp.blocked == Some(ids[k])
                    && ids[k] in runs && !Fits(runs[ids[k]], micros)
                    && forall j :: 0 <= j < k ==> ids[j] in runs && Fits(runs[ids[j]], micros))
  {
    ChainIsWalk(runs, run);
    if run in runs {
      var ids := Chain(runs, run);
      forall id | id in ids ensures Exceeds(runs[id], micros) <==> !Fits(runs[id], micros) {}
      var k := FirstExceeded(runs, ids, micros);
      if k < |ids| { assert ids[k] in ids; }
    }
  }

  // --------------------------------------------------------- the depth guard

  /** The known run `n` steps up from a run. */
  function Upward(runs: Runs, run: RunId, n: nat): (id: Option<RunId>)
    ensures id.Some? ==> id.value in runs
  {
    if n == 0 then if run in runs then Some(run) else None
    else
      match Upward(runs, run, n - 1)
      case None => None
      case Some(below) =>
        var parent := runs[below].parent;
        if parent.Some? && parent.value in runs then parent else None
  }

  /** The run itself, or one above it at any height. */
  ghost predicate IsAncestor(runs: Runs, run: RunId, id: RunId) {
    exists n: nat :: Upward(runs, run, n) == Some(id)
  }

  /** The walk ended at the depth, below a known run it had not met. */
  predicate CutAtDepth(runs: Runs, run: RunId) {
    var ids := Chain(runs, run);
    ChainIsWalk(runs, run);
    |ids| == MAX_CHAIN_DEPTH
    && var parent := runs[ids[MAX_CHAIN_DEPTH - 1]].parent;
       parent.Some? && parent.value in runs && parent.value !in ids
  }

  lemma {:induction false} ChainGoesUp(runs: Runs, run: RunId, n: nat)
    requires n < |Chain(runs, run)|
    ensures Upward(runs, run, n) == Some(Chain(runs, run)[n])
  {
    ChainIsWalk(runs, run);
    if n > 0 { ChainGoesUp(runs, run, n - 1); }
  }

  lemma {:induction false} UpStaysInChain(runs: Runs, run: RunId, n: nat)
    requires !CutAtDepth(runs, run)
    ensures var id := Upward(runs, run, n); id.Some? ==> id.value in Chain(runs, run)
  {
    ChainIsWalk(runs, run);
    var ids := Chain(runs, run);
    if n > 0 {
      UpStaysInChain(runs, run, n - 1);
      var below := Upward(runs, run, n - 1);
      if below.Some? {
        var k :| 0 <= k < |ids| && ids[k] == below.value;
        if k + 1 < |ids| { assert runs[ids[k]].parent == Some(ids[k + 1]); }
      }
    }
  }

  /** The chain holds ancestors only, and it holds them all if and only if the walk was not
      cut at the depth. */
  lemma ChainHoldsEveryAncestor(runs: Runs, run: RunId)
    ensures forall id :: id in Chain(runs, run) ==> IsAncestor(runs, run, id)
    ensures (forall id :: IsAncestor(runs, run, id) ==> id in Chain(runs, run)) <==> !CutAtDepth(runs, run)
  {
    ChainIsWalk(runs, run);
    var ids := Chain(runs, run);
    forall id | id in ids ensures IsAncestor(runs, run, id) {
      var n :| 0 <= n < |ids| && ids[n] == id;
      ChainGoesUp(runs, run, n);
    }
    if CutAtDepth(runs, run) {
      ChainGoesUp(runs, run, MAX_CHAIN_DEPTH - 1);
      assert Upward(runs, run, MAX_CHAIN_DEPTH) == runs[ids[MAX_CHAIN_DEPTH - 1]].parent;
    } else {
      forall id | IsAncestor(runs, run, id) ensures id in ids {
        var n: nat :| Upward(runs, run, n) == Some(id);
        UpStaysInChain(runs, run, n);
      }
    }
  }

  /** A reserve whose walk is not cut is accepted exactly when its run is known and every
      ancestor has room for it. */
  lemma ReserveFitsEveryAncestor(runs: Runs, run: RunId, micros: u64)
    requires !CutAtDepth(runs, run)
    ensures Applied(runs, Reserve(run, micros)).1.accepted
       <==> run in runs && forall id :: IsAncestor(runs, run, id) ==> id in runs && Fits(runs[id], micros)
  {
    hide Applied, Fits, CutAtDepth, IsAncestor, Chain;
    ReserveIsAllOrNothing(runs, run, micros);
    ChainHoldsEveryAncestor(runs, run);
  }

  // ------------------------------------------------------------- whole logs

  /** A hold, or a payment: an amount booked against a run and its ancestors. */
  datatype Amount = Amount(run: RunId, micros: u64)

  /** The ledger beside what an auditor of the log would write down. */
  datatype Books = Books(runs: Runs, held: seq<Amount>, paid: seq<Amount>)

  const EMPTY_BOOKS := Books(map[], [], [])

  function Without(s: seq<Amount>, a: Amount): seq<Amount> {
    if s == [] then [] else if s[0] == a then s[1..] else [s[0]] + Without(s[1..], a)
  }

  /** The source's premises on the log: a parent is opened before its child, and a
      settle closes one hold that an accepted reserve left open. */
  predicate Allowed(b: Books, req: Request) {
    match req
    case Open(run, _, parent) => run in b.runs || parent.None? || parent.value in b.runs
    case Reserve(_, _) => true
    case Settle(run, held, _) => Amount(run, held) in b.held
  }

  function Next(b: Books, req: Request): Books {
    var (runs, resp) := Applied(b.runs, req);
    match req
    case Open(_, _, _) => b.(runs := runs)
    case Reserve(run, micros) =>
      Books(runs, if resp.accepted then b.held + [Amount(run, micros)] else b.held, b.paid)
    case Settle(run, held, actual) =>
      Books(runs, Without(b.held, Amount(run, held)), b.paid + [Amount(run, actual)])
  }

  predicate Legal(b: Books, log: seq<Request>)
    decreases |log|
  {
    log == [] || (Allowed(b, log[0]) && Legal(Next(b, log[0]), log[1..]))
  }

  /** The books after the whole of a log. */
  function Replay(b: Books, log: seq<Request>): Books
    decreases |log|
  {
    if log == [] then b else Replay(Next(b, log[0]), log[1..])
  }

  /** The exact total of the amounts whose run rolls up into `id`. */
  function Total(amounts: seq<Amount>, runs: Runs, id: RunId): nat {
    if amounts == [] then 0
    else (if id in Chain(runs, amounts[0].run) then amounts[0].micros else 0) + Total(amounts[1..], runs, id)
  }

  /** A run's two counters are the exact totals of the log. */
  ghost predicate Conserved(b: Books, id: RunId) {
    id in b.runs ==>
      b.runs[id].reserved == Total(b.held, b.runs, id) && b.runs[id].spent == Total(b.paid, b.runs, id)
  }

  /** The source's additions to a run's counters do not reach the u64 ceiling on this entry. */
  predicate Unsaturated(b: Books, req: Request, id: RunId) {
    id in Chain(b.runs, req.run) && id in b.runs ==>
      match req
      case Open(_, _, _) => true
      case Reserve(run, micros) => Applied(b.runs, req).1.accepted ==> b.runs[id].reserved + micros <= U64_MAX
      case Settle(run, _, actual) => b.runs[id].spent + actual <= U64_MAX
  }

  ghost predicate StaysConserved(b: Books, log: seq<Request>, id: RunId)
    decreases |log|
  {
    Conserved(b, id) && (log != [] ==> StaysConserved(Next(b, log[0]), log[1..], id))
  }

  predicate NeverSaturates(b: Books, log: seq<Request>, id: RunId)
    decreases |log|
  {
    log != [] ==> Unsaturated(b, log[0], id) && NeverSaturates(Next(b, log[0]), log[1..], id)
  }

  /** Parents and booked runs are known runs. */
  ghost predicate Rooted(b: Books) {
    && (forall id :: id in b.runs ==> b.runs[id].parent.None? || b.runs[id].parent.value in b.runs)
    && (forall a :: a in b.held ==> a.run in b.runs)
    && (forall a :: a in b.paid ==> a.run in b.runs)
  }

  // A run's chain never changes once the run is open.

  ghost predicate Extends(runs: Runs, next: Runs) {
    && (forall id :: id in runs ==> id in next && next[id].parent == runs[id].parent)
    && (forall id :: id in runs ==> runs[id].parent.None? || runs[id].parent.value in runs)
  }

  lemma {:induction false} ChainFromStable(runs: Runs, next: Runs, cur: Option<RunId>, ids: seq<RunId>)
    requires Extends(runs, next)
    requires cur.None? || cur.value in runs
    ensures ChainFrom(next, cur, ids) == ChainFrom(runs, cur, ids)
    decreases MAX_CHAIN_DEPTH - |ids|
  {
    if cur.None? || cur.value in ids || |ids| >= MAX_CHAIN_DEPTH {
    } else {
      ChainFromStable(runs, next, runs[cur.value].parent, ids + [cur.value]);
    }
  }

  lemma {:induction false} TotalStable(amounts: seq<Amount>, runs: Runs, next: Runs, id: RunId)
    requires Extends(runs, next)
    requires forall a :: a in amounts ==> a.run in runs
    ensures Total(amounts, next, id) == Total(amounts, runs, id)
    ensures id !in runs ==> Total(amounts, next, id) == 0
  {
    if amounts != [] {
      assert amounts[0] in amounts;
      ChainFromStable(runs, next, Some(amounts[0].run), []);
      ChainIsWalk(runs, amounts[0].run);
      TotalStable(amounts[1..], runs, next, id);
    }
  }

  lemma {:induction false} TotalAppend(amounts: seq<Amount>, a: Amount, runs: Runs, id: RunId)
    ensures Total(amounts + [a], runs, id)
         == Total(amounts, runs, id) + if id in Chain(runs, a.run) then a.micros else 0
  {
    if amounts == [] {
      assert amounts + [a] == [a];
    } else {
      assert (amounts + [a])[1..] == amounts[1..] + [a];
      TotalAppend(amounts[1..], a, runs, id);
    }
  }

  lemma {:induction false} TotalWithout(amounts: seq<Amount>, a: Amount, runs: Runs, id: RunId)
    requires a in amounts
    ensures Total(Without(amounts, a), runs, id)
         == Total(amounts, runs, id) - if id in Chain(runs, a.run) then a.micros else 0
    ensures forall x :: x in Without(amounts, a) ==> x in amounts
  {
    if amounts[0] != a {
      TotalWithout(amounts[1..], a, runs, id);
    }
  }

  lemma NextExtends(b: Books, req: Request)
    requires Rooted(b) && Allowed(b, req)
    ensures Extends(b.runs, Next(b, req).runs)
    ensures Rooted(Next(b, req))
  {
    if req.Settle? {
      TotalWithout(b.held, Amount(req.run, req.held), b.runs, req.run);
    }
  }

  /** A run's chain is fixed by the entry that opened it. */
  lemma {:induction false} ChainNeverChanges(b: Books, log: seq<Request>, run: RunId)
    requires Rooted(b) && Legal(b, log) && run in b.runs
    ensures run in Replay(b, log).runs
    ensures Chain(Replay(b, log).runs, run) == Chain(b.runs, run)
    decreases |log|
  {
    if log != [] {
      NextExtends(b, log[0]);
      ChainFromStable(b.runs, Next(b, log[0]).runs, Some(run), []);
      ChainNeverChanges(Next(b, log[0]), log[1..], run);
    }
  }

  /** The exact totals one entry leaves at a run, from those before it. */
  lemma NextTotals(b: Books, req: Request, id: RunId)
    requires Rooted(b) && Allowed(b, req)
    ensures var n := Next(b, req);
            var hit := id in Chain(b.runs, req.run);
            && Total(n.held, n.runs, id) == Total(b.held, b.runs, id)
                 + (if hit && req.Reserve? && Applied(b.runs, req).1.accepted then req.micros else 0)
                 - (if hit && req.Settle? then req.held else 0)
            && Total(n.paid, n.runs, id) == Total(b.paid, b.runs, id)
                 + (if hit && req.Settle? then req.actual else 0)
  {
    var n := Next(b, req);
    NextExtends(b, req);
    TotalStable(b.held, b.runs, n.runs, id);
    TotalStable(b.paid, b.runs, n.runs, id);
    match req
    case Open(_, _, _) =>
    case Reserve(run, micros) =>
      TotalAppend(b.held, Amount(run, micros), n.runs, id);
      if run in b.runs { ChainFromStable(b.runs, n.runs, Some(run), []); }
    case Settle(run, held, actual) =>
      ChainFromStable(b.runs, n.runs, Some(run), []);
      TotalWithout(b.held, Amount(run, held), n.runs, id);
      TotalAppend(b.paid, Amount(run, actual), n.runs, id);
  }

  /** One entry keeps a run's counters exact if and only if none of its additions to them
      saturates. What it adds at other runs, its parent among them, does not matter. */
  lemma ConservedStep(b: Books, req: Request, id: RunId)
    requires Rooted(b) && Allowed(b, req) && Conserved(b, id)
    ensures Conserved(Next(b, req), id) <==> Unsaturated(b, req, id)
  {
    hide Chain, Total, FirstExceeded, Without;
    ChainIsWalk(b.runs, req.run);
    NextTotals(b, req, id);
    if id !in b.runs {
      var n := Next(b, req);
      TotalStable(b.held, b.runs, n.runs, id);
      TotalStable(b.paid, b.runs, n.runs, id);
    }
  }

  /** Conservation over whole logs, run by run: in every reachable state a run's `reserved`
      is the total held by the runs that roll up into it and its `spent` the total they
      were settled at, if and only if no addition to its counters along the log saturates. */
  lemma {:induction false} Conservation(b: Books, log: seq<Request>, id: RunId)
    requires Rooted(b) && Conserved(b, id) && Legal(b, log)
    ensures StaysConserved(b, log, id) <==> NeverSaturates(b, log, id)
    decreases |log|
  {
    hide Conserved, Rooted, Next, Unsaturated, Allowed;
    if log != [] {
      NextExtends(b, log[0]);
      ConservedStep(b, log[0], id);
      if Conserved(Next(b, log[0]), id) {
        Conservation(Next(b, log[0]), log[1..], id);
      }
    }
  }

  // ------------------------------------------------------- what the replies report

  /** The ceiling a log gave a run last. */
  function LastBudget(log: seq<Request>, id: RunId): Option<u64>
    decreases |log|
  {
    if log == [] then None
    else
      var later := LastBudget(log[1..], id);
      if later.Some? then later else if log[0].Open? && log[0].run == id then Some(log[0].budget) else None
  }

  /** The parent a log gave a run first. */
  function FirstParent(log: seq<Request>, id: RunId): Option<RunId>
    decreases |log|
  {
    if log == [] then None
    else if log[0].Open? && log[0].run == id then log[0].parent
    else FirstParent(log[1..], id)
  }

  /** How many reserves of a run were accepted along a log. */
  function AcceptedReserves(b: Books, log: seq<Request>, id: RunId): nat
    decreases |log|
  {
    if log == [] then 0
    else
      (if log[0].Reserve? && log[0].run == id && Applied(b.runs, log[0]).1.accepted then 1 else 0)
      + AcceptedReserves(Next(b, log[0]), log[1..], id)
  }

  lemma HistoryStep(b: Books, req: Request, id: RunId)
    ensures var n := Next(b, req);
            && (id in n.runs <==> id in b.runs || (req.Open? && req.run == id))
            && (id in n.runs ==>
                  && n.runs[id].budget == (if req.Open? && req.run == id then req.budget else b.runs[id].budget)
                  && n.runs[id].parent == (if id in b.runs then b.runs[id].parent else req.parent)
                  && n.runs[id].steps == ((if id in b.runs then b.runs[id].steps else 0)
                       + if req.Reserve? && req.run == id && Applied(b.runs, req).1.accepted then 1 else 0) % 0x1_0000_0000)
            && (req.Reserve? && req.run == id && Applied(b.runs, req).1.accepted ==> id in b.runs)
  {
    hide Applied;
    ChainIsWalk(b.runs, req.run);
    AppliedIs(b.runs, req);
    assert req.run in b.runs ==> Chain(b.runs, req.run)[0] == req.run;
  }

  /** Over any log, a run is there exactly if it was opened, with the ceiling it was given last,
      the parent it was given first, and its accepted reserves counted at 32 bits. */
  lemma {:induction false} RunIsItsHistory(b: Books, log: seq<Request>, id: RunId)
    ensures var end := Replay(b, log).runs;
            && (id in end <==> id in b.runs || LastBudget(log, id).Some?)
            && (id in end ==>
                  && end[id].budget == (if LastBudget(log, id).Some? then LastBudget(log, id).value else b.runs[id].budget)
                  && end[id].parent == (if id in b.runs then b.runs[id].parent else FirstParent(log, id))
                  && end[id].steps == ((if id in b.runs then b.runs[id].steps else 0) + AcceptedReserves(b, log, id)) % 0x1_0000_0000)
    decreases |log|
  {
    hide Applied, Next;
    if log != [] {
      HistoryStep(b, log[0], id);
      RunIsItsHistory(Next(b, log[0]), log[1..], id);
      var first := (if id in b.runs then b.runs[id].steps else 0)
        + if log[0].Reserve? && log[0].run == id && Applied(b.runs, log[0]).1.accepted then 1 else 0;
      CountsOn(first, AcceptedReserves(Next(b, log[0]), log[1..], id));
    }
  }

  lemma CountsOn(a: nat, more: nat)
    ensures (a % 0x1_0000_0000 + more) % 0x1_0000_0000 == (a + more) % 0x1_0000_0000
  {
    var q, r := a / 0x1_0000_0000, a % 0x1_0000_0000;
    var k := (r + more) / 0x1_0000_0000;
    assert a + more == (q + k) * 0x1_0000_0000 + (r + more) % 0x1_0000_0000;
  }

  lemma {:induction false} ReplayOneMore(b: Books, log: seq<Request>, req: Request)
    ensures Replay(b, log + [req]) == Next(Replay(b, log), req)
    ensures Legal(b, log + [req]) ==> Legal(b, log) && Allowed(Replay(b, log), req)
    decreases |log|
  {
    hide Next, Allowed;
    if log == [] {
      assert log + [req] == [req] && [req][1..] == [];
    } else {
      assert (log + [req])[1..] == log[1..] + [req];
      ReplayOneMore(Next(b, log[0]), log[1..], req);
    }
  }

  lemma {:induction false} ConservedAtEnd(b: Books, log: seq<Request>, id: RunId)
    requires Rooted(b) && Legal(b, log) && StaysConserved(b, log, id)
    ensures Rooted(Replay(b, log)) && Conserved(Replay(b, log), id)
    decreases |log|
  {
    hide Next, Allowed, Conserved, Rooted;
    if log != [] {
      NextExtends(b, log[0]);
      ConservedAtEnd(Next(b, log[0]), log[1..], id);
    }
  }

  /** What an accepted reply reports, from an empty ledger on, where the run's counters never
      saturate: the exact totals held and paid by the runs that roll up into it, the ceiling it
      was given last, and how many reserves of it were accepted. */
  lemma RepliesReportTheHistory(log: seq<Request>, req: Request)
    requires Legal(EMPTY_BOOKS, log + [req]) && NeverSaturates(EMPTY_BOOKS, log + [req], req.run)
    ensures var resp, n := Applied(Replay(EMPTY_BOOKS, log).runs, req).1, Replay(EMPTY_BOOKS, log + [req]);
            resp.accepted ==>
              && resp.reserved == Total(n.held, n.runs, req.run) && resp.spent == Total(n.paid, n.runs, req.run)
              && LastBudget(log + [req], req.run) == Some(resp.budget)
              && resp.step == AcceptedReserves(EMPTY_BOOKS, log + [req], req.run) % 0x1_0000_0000
              && resp.blocked == None
  {
    hide Legal, NeverSaturates, Replay, Total, Applied, Chain, Rooted, Conserved, StaysConserved, AcceptedReserves, LastBudget;
    var all := log + [req];
    EmptyIsConserved(req.run);
    Conservation(EMPTY_BOOKS, all, req.run);
    ConservedAtEnd(EMPTY_BOOKS, all, req.run);
    RunIsItsHistory(EMPTY_BOOKS, all, req.run);
    ReplayOneMore(EMPTY_BOOKS, log, req);
    EmptyStays(log, req);
    ReplyEchoes(Replay(EMPTY_BOOKS, log), req);
    ConservedIs(Replay(EMPTY_BOOKS, all), req.run);
  }

  lemma EmptyIsConserved(id: RunId)
    ensures Rooted(EMPTY_BOOKS) && Conserved(EMPTY_BOOKS, id)
  {
  }

  lemma {:induction false} RootedAtEnd(b: Books, log: seq<Request>)
    requires Rooted(b) && Legal(b, log)
    ensures Rooted(Replay(b, log))
    decreases |log|
  {
    hide Next, Allowed, Rooted;
    if log != [] {
      NextExtends(b, log[0]);
      RootedAtEnd(Next(b, log[0]), log[1..]);
    }
  }

  lemma EmptyStays(log: seq<Request>, req: Request)
    requires Legal(EMPTY_BOOKS, log + [req])
    ensures Rooted(Replay(EMPTY_BOOKS, log)) && Allowed(Replay(EMPTY_BOOKS, log), req)
  {
    hide Legal, Replay, Rooted, Allowed;
    EmptyIsConserved(req.run);
    ReplayOneMore(EMPTY_BOOKS, log, req);
    RootedAtEnd(EMPTY_BOOKS, log);
  }

  lemma ConservedIs(b: Books, id: RunId)
    ensures Conserved(b, id) && id in b.runs ==>
              b.runs[id].reserved == Total(b.held, b.runs, id) && b.runs[id].spent == Total(b.paid, b.runs, id)
  {
  }

  /** An accepted reply is about its own run as the entry leaves it. */
  lemma ReplyEchoes(b: Books, req: Request)
    requires Rooted(b) && Allowed(b, req)
    ensures var resp, n := Applied(b.runs, req).1, Next(b, req);
            resp.accepted ==>
              req.run in n.runs && Echoes(resp, n.runs[req.run]) && resp.step == n.runs[req.run].steps && resp.blocked == None
  {
    hide Applied, Chain, IsWalk;
    ChainIsWalk(b.runs, req.run);
    AppliedIs(b.runs, req);
    if req.Settle? { assert Amount(req.run, req.held) in b.held; }
  }

  // ------------------------------------------------------- no oversubscription

  /** No actual charged to the run passes its hold, and its own ceiling is not lowered below
      what is committed. */
  predicate Prudent(b: Books, req: Request, id: RunId) {
    match req
    case Open(run, budget, _) => run == id && id in b.runs ==> b.runs[id].Committed() <= budget
    case Reserve(_, _) => true
    case Settle(run, held, actual) => id in Chain(b.runs, run) ==> actual <= held
  }

  predicate StaysPrudent(b: Books, log: seq<Request>, id: RunId)
    decreases |log|
  {
    log != [] ==> Prudent(b, log[0], id) && StaysPrudent(Next(b, log[0]), log[1..], id)
  }

  /** The run is not over its ceiling, in exact arithmetic wherever the ceiling is not the
      largest u64. */
  ghost predicate WithinBudget(b: Books, id: RunId) {
    id in b.runs ==>
      && b.runs[id].Committed() <= b.runs[id].budget
      && (b.runs[id].budget < U64_MAX ==> b.runs[id].spent + b.runs[id].reserved <= b.runs[id].budget)
  }

  ghost predicate StaysWithinBudget(b: Books, log: seq<Request>, id: RunId)
    decreases |log|
  {
    WithinBudget(b, id) && (log != [] ==> StaysWithinBudget(Next(b, log[0]), log[1..], id))
  }

  lemma {:induction false} HoldIsInTotal(amounts: seq<Amount>, a: Amount, runs: Runs, id: RunId)
    requires a in amounts && id in Chain(runs, a.run)
    ensures a.micros <= Total(amounts, runs, id)
  {
    if amounts[0] != a {
      HoldIsInTotal(amounts[1..], a, runs, id);
    }
  }

  /** A settle charged to the run, whose ceiling is a real one, still finds its hold on the
      counter, or has room without it. */
  predicate Covers(b: Books, req: Request, id: RunId) {
    req.Settle? && id in Chain(b.runs, req.run) && id in b.runs && b.runs[id].budget < U64_MAX ==>
      req.held <= b.runs[id].reserved || b.runs[id].spent + req.actual <= b.runs[id].budget
  }

  predicate StaysCovered(b: Books, log: seq<Request>, id: RunId)
    decreases |log|
  {
    log != [] ==> Covers(b, log[0], id) && StaysCovered(Next(b, log[0]), log[1..], id)
  }

  /** One prudent entry keeps a run within its ceiling if and only if it is covered. */
  lemma CoveredStep(b: Books, req: Request, id: RunId)
    requires Prudent(b, req, id) && WithinBudget(b, id)
    ensures WithinBudget(Next(b, req), id) <==> Covers(b, req, id)
  {
    hide Chain, FirstExceeded, Without;
    ChainIsWalk(b.runs, req.run);
    if req.Reserve? {
      ReserveIsAllOrNothing(b.runs, req.run, req.micros);
    }
  }

  /** Over every log that is prudent at a run, legal or not and whatever saturates, the run
      is never committed past its ceiling if and only if every settle charged to it is
      covered. Nothing is asked of any other run. */
  lemma {:induction false} WithinBudgetIfCovered(b: Books, log: seq<Request>, id: RunId)
    requires WithinBudget(b, id) && StaysPrudent(b, log, id)
    ensures StaysWithinBudget(b, log, id) <==> StaysCovered(b, log, id)
    decreases |log|
  {
    hide WithinBudget, Next, Covers, Prudent;
    if log != [] {
      CoveredStep(b, log[0], id);
      if WithinBudget(Next(b, log[0]), id) {
        WithinBudgetIfCovered(Next(b, log[0]), log[1..], id);
      }
    }
  }

  lemma ConservedIsCovered(b: Books, req: Request, id: RunId)
    requires Allowed(b, req) && Conserved(b, id)
    ensures Covers(b, req, id)
  {
    hide Chain, Total;
    if req.Settle? && id in Chain(b.runs, req.run) && id in b.runs {
      HoldIsInTotal(b.held, Amount(req.run, req.held), b.runs, id);
    }
  }

  /** So it is over every legal log while the run's counters never saturate: they then hold
      every hold that is open. */
  lemma {:induction false} NeverSaturatesIsCovered(b: Books, log: seq<Request>, id: RunId)
    requires Rooted(b) && Conserved(b, id) && Legal(b, log) && NeverSaturates(b, log, id)
    ensures StaysCovered(b, log, id)
    decreases |log|
  {
    hide Conserved, Rooted, Next, Unsaturated, Allowed, Covers;
    if log != [] {
      NextExtends(b, log[0]);
      ConservedStep(b, log[0], id);
      ConservedIsCovered(b, log[0], id);
      NeverSaturatesIsCovered(Next(b, log[0]), log[1..], id);
    }
  }

  /** Over every legal log that is prudent at a run and never saturates its counters, they
      stay exact and the run is never committed past its ceiling. */
  lemma NoOversubscription(b: Books, log: seq<Request>, id: RunId)
    requires Rooted(b) && Conserved(b, id) && WithinBudget(b, id)
    requires Legal(b, log) && StaysPrudent(b, log, id) && NeverSaturates(b, log, id)
    ensures StaysConserved(b, log, id) && StaysWithinBudget(b, log, id)
  {
    hide Conserved, WithinBudget, Rooted, Legal, StaysPrudent, NeverSaturates, StaysConserved, StaysWithinBudget, StaysCovered;
    Conservation(b, log, id);
    NeverSaturatesIsCovered(b, log, id);
    WithinBudgetIfCovered(b, log, id);
  }

  /** The run's ceiling is a real one: below the largest u64. */
  predicate Bounded(b: Books, id: RunId) { id in b.runs ==> b.runs[id].budget < U64_MAX }

  /** Whenever the log opens the run, it gives it such a ceiling. */
  predicate BoundedLog(log: seq<Request>, id: RunId) {
    forall k :: 0 <= k < |log| && log[k].Open? && log[k].run == id ==> log[k].budget < U64_MAX
  }

  lemma BoundedStep(b: Books, req: Request, id: RunId)
    requires Allowed(b, req) && Prudent(b, req, id) && Conserved(b, id) && WithinBudget(b, id) && Bounded(b, id)
    requires req.Open? && req.run == id ==> req.budget < U64_MAX
    ensures Unsaturated(b, req, id) && Bounded(Next(b, req), id)
  {
    hide Chain, Total, FirstExceeded, Without;
    ChainIsWalk(b.runs, req.run);
    match req
    case Open(_, _, _) =>
    case Reserve(run, micros) => ReserveIsAllOrNothing(b.runs, run, micros);
    case Settle(run, held, actual) =>
      if id in Chain(b.runs, run) { HoldIsInTotal(b.held, Amount(run, held), b.runs, id); }
  }

  lemma {:induction false} BoundedNeverSaturates(b: Books, log: seq<Request>, id: RunId)
    requires Rooted(b) && Conserved(b, id) && WithinBudget(b, id) && Bounded(b, id)
    requires Legal(b, log) && StaysPrudent(b, log, id) && BoundedLog(log, id)
    ensures NeverSaturates(b, log, id)
    decreases |log|
  {
    hide Conserved, WithinBudget, Bounded, Rooted, Next, Unsaturated, Allowed, Prudent;
    if log != [] {
      NextExtends(b, log[0]);
      BoundedStep(b, log[0], id);
      ConservedStep(b, log[0], id);
      ConservedIsCovered(b, log[0], id);
      CoveredStep(b, log[0], id);
      BoundedNeverSaturates(Next(b, log[0]), log[1..], id);
    }
  }

  /** A run whose own ceiling is always below the largest u64 needs no other premise: its
      counters stay exact and it is never oversubscribed, also under an unlimited parent. */
  lemma BoundedRunsAreSafe(b: Books, log: seq<Request>, id: RunId)
    requires Rooted(b) && Conserved(b, id) && WithinBudget(b, id) && Bounded(b, id)
    requires Legal(b, log) && StaysPrudent(b, log, id) && BoundedLog(log, id)
    ensures StaysConserved(b, log, id) && StaysWithinBudget(b, log, id)
  {
    hide Conserved, WithinBudget, Bounded, Rooted, Legal, StaysPrudent, BoundedLog, NeverSaturates;
    BoundedNeverSaturates(b, log, id);
    NoOversubscription(b, log, id);
  }

  /** From an empty ledger: every run of a real ceiling, whatever the others' are. */
  lemma FreshLedgerIsSafe(log: seq<Request>, id: RunId)
    requires Legal(EMPTY_BOOKS, log) && StaysPrudent(EMPTY_BOOKS, log, id) && BoundedLog(log, id)
    ensures StaysConserved(EMPTY_BOOKS, log, id) && StaysWithinBudget(EMPTY_BOOKS, log, id)
  {
    BoundedRunsAreSafe(EMPTY_BOOKS, log, id);
  }

  // ------------------------------------------------- where the premises matter

  /** A legal log, prudent at the run, leads from an empty ledger to the books. */
  ghost predicate Reached(log: seq<Request>, b: Books, id: RunId) {
    Legal(EMPTY_BOOKS, log) && StaysPrudent(EMPTY_BOOKS, log, id) && Replay(EMPTY_BOOKS, log) == b
  }

  lemma {:induction false} ReplayMore(b: Books, log: seq<Request>, req: Request, id: RunId)
    requires Legal(b, log) && StaysPrudent(b, log, id)
    requires Allowed(Replay(b, log), req) && Prudent(Replay(b, log), req, id)
    ensures Legal(b, log + [req]) && StaysPrudent(b, log + [req], id)
    ensures Replay(b, log + [req]) == Next(Replay(b, log), req)
    decreases |log|
  {
    hide Next, Allowed, Prudent;
    if log == [] {
      assert log + [req] == [req] && [req][1..] == [];
    } else {
      assert (log + [req])[1..] == log[1..] + [req];
      ReplayMore(Next(b, log[0]), log[1..], req, id);
    }
  }

  lemma ReachedMore(log: seq<Request>, b: Books, req: Request, next: Books, id: RunId)
    requires Reached(log, b, id) && Allowed(b, req) && Prudent(b, req, id) && Next(b, req) == next
    ensures Reached(log + [req], next, id)
  {
    hide Next, Allowed, Prudent, Legal, StaysPrudent, Replay;
    ReplayMore(EMPTY_BOOKS, log, req, id);
  }

  /** The books of a ledger of the one run "r", and what is held of it and paid. */
  function Alone(budget: u64, reserved: u64, spent: u64, steps: u32, held: seq<u64>, paid: seq<u64>): Books {
    Books(map["r" := RunState(budget, reserved, spent, steps, None)], Amounts(held), Amounts(paid))
  }

  function Amounts(micros: seq<u64>): (a: seq<Amount>)
    ensures |a| == |micros|
  {
    seq(|micros|, i requires 0 <= i < |micros| => Amount("r", micros[i]))
  }

  lemma ChainAlone(b: Books)
    requires "r" in b.runs && b.runs["r"].parent.None?
    ensures Chain(b.runs, "r") == ["r"]
  {
    assert ChainFrom(b.runs, Some("r"), []) == ChainFrom(b.runs, None, ["r"]);
  }

  lemma OpenAlone(log: seq<Request>, before: u64, budget: u64, steps: u32, held: seq<u64>, paid: seq<u64>)
    requires Reached(log, Alone(before, 0, 0, steps, held, paid), "r")
    ensures Reached(log + [Open("r", budget, None)], Alone(budget, 0, 0, steps, held, paid), "r")
  {
    ReachedMore(log, Alone(before, 0, 0, steps, held, paid), Open("r", budget, None),
      Alone(budget, 0, 0, steps, held, paid), "r");
  }

  lemma ReserveAlone(
    log: seq<Request>, budget: u64, reserved: u64, spent: u64, steps: u32, held: seq<u64>, paid: seq<u64>, micros: u64,
    more: seq<u64>)
    requires Reached(log, Alone(budget, reserved, spent, steps, held, paid), "r") && steps < 9
    requires more == held + [micros]
    requires spent + reserved + micros <= budget || budget == U64_MAX
    ensures Reached(log + [Reserve("r", micros)],
              Alone(budget, SatAdd(reserved, micros), spent, steps + 1, more, paid), "r")
  {
    hide Reached;
    var b := Alone(budget, reserved, spent, steps, held, paid);
    ChainAlone(b);
    ReserveIsAllOrNothing(b.runs, "r", micros);
    assert Amounts(more) == Amounts(held) + [Amount("r", micros)];
    ReachedMore(log, b, Reserve("r", micros),
      Alone(budget, SatAdd(reserved, micros), spent, steps + 1, more, paid), "r");
  }

  lemma SettleAlone(
    log: seq<Request>, budget: u64, reserved: u64, spent: u64, steps: u32, held: seq<u64>, paid: seq<u64>, actual: u64,
    rest: seq<u64>, more: seq<u64>)
    requires Reached(log, Alone(budget, reserved, spent, steps, held, paid), "r")
    requires held != [] && actual <= held[0] && rest == held[1..] && more == paid + [actual]
    ensures Reached(log + [Settle("r", held[0], actual)],
              Alone(budget, SatSub(reserved, held[0]), SatAdd(spent, actual), steps, rest, more), "r")
  {
    hide Reached;
    var b := Alone(budget, reserved, spent, steps, held, paid);
    ChainAlone(b);
    assert Amounts(held)[0] == Amount("r", held[0]) && Amounts(rest) == Amounts(held)[1..];
    assert Amounts(more) == Amounts(paid) + [Amount("r", actual)];
    ReachedMore(log, b, Settle("r", held[0], actual),
      Alone(budget, SatSub(reserved, held[0]), SatAdd(spent, actual), steps, rest, more), "r");
  }

  const FULL_HOLD := Reserve("r", U64_MAX)
  const TWO_FULL_HOLDS := [Open("r", U64_MAX, None), FULL_HOLD, FULL_HOLD]

  lemma TwoFullHolds()
    ensures Reached(TWO_FULL_HOLDS, Alone(U64_MAX, U64_MAX, 0, 2, [U64_MAX, U64_MAX], []), "r")
  {
    var open := Open("r", U64_MAX, None);
    assert Next(EMPTY_BOOKS, open) == Alone(U64_MAX, 0, 0, 0, [], []);
    ReachedMore([], EMPTY_BOOKS, open, Alone(U64_MAX, 0, 0, 0, [], []), "r");
    assert [] + [open] == [open];
    hide Reached;
    ReserveAlone([open], U64_MAX, 0, 0, 0, [], [], U64_MAX, [U64_MAX]);
    assert [open] + [FULL_HOLD] == [open, FULL_HOLD];
    ReserveAlone([open, FULL_HOLD], U64_MAX, U64_MAX, 0, 1, [U64_MAX], [], U64_MAX, [U64_MAX, U64_MAX]);
    assert [open, FULL_HOLD] + [FULL_HOLD] == TWO_FULL_HOLDS;
  }

  /** With the largest u64 as its ceiling a run accepts two holds of that size, and the
      counter forgets one of them: a legal, prudent log that is not conserved. */
  lemma SaturationLosesAHold()
    ensures Legal(EMPTY_BOOKS, TWO_FULL_HOLDS) && StaysPrudent(EMPTY_BOOKS, TWO_FULL_HOLDS, "r")
    ensures var b := Replay(EMPTY_BOOKS, TWO_FULL_HOLDS);
            "r" in b.runs && b.runs["r"].reserved == U64_MAX && Total(b.held, b.runs, "r") == 2 * U64_MAX
  {
    TwoFullHolds();
    hide Legal, StaysPrudent, Replay;
    var hold := Amount("r", U64_MAX);
    var b := Alone(U64_MAX, U64_MAX, 0, 2, [U64_MAX, U64_MAX], []);
    ChainAlone(b);
    assert b.held == [hold, hold] && [hold, hold][1..] == [hold] && [hold][1..] == [];
    assert Total([hold], b.runs, "r") == U64_MAX;
  }

  const SETTLE_FULL := Settle("r", U64_MAX, 0)
  const SETTLE_TEN := Settle("r", 10, 10)
  const AFTER_THE_HOLDS := [
    SETTLE_FULL, Open("r", 10, None), Reserve("r", 10), SETTLE_FULL, Reserve("r", 10), SETTLE_TEN, SETTLE_TEN]

  /** ... and the hold it forgot is settled out of another's reservation once the ceiling is
      a real one: a legal, prudent log that spends 20 under a ceiling of 10. */
  lemma LostHoldOversubscribes()
    ensures var log := TWO_FULL_HOLDS + AFTER_THE_HOLDS;
            var b := Replay(EMPTY_BOOKS, log);
            && Legal(EMPTY_BOOKS, log) && StaysPrudent(EMPTY_BOOKS, log, "r")
            && "r" in b.runs && b.runs["r"].budget == 10 && b.runs["r"].spent == 20 && b.held == []
            && !WithinBudget(b, "r")
  {
    var a := AFTER_THE_HOLDS;
    TwoFullHolds();
    hide Reached;
    SettleAlone(TWO_FULL_HOLDS, U64_MAX, U64_MAX, 0, 2, [U64_MAX, U64_MAX], [], 0, [U64_MAX], [0]);
    LogGrows(TWO_FULL_HOLDS, a, 0);
    OpenAlone(TWO_FULL_HOLDS + a[..1], U64_MAX, 10, 2, [U64_MAX], [0]);
    LogGrows(TWO_FULL_HOLDS, a, 1);
    ReserveAlone(TWO_FULL_HOLDS + a[..2], 10, 0, 0, 2, [U64_MAX], [0], 10, [U64_MAX, 10]);
    LogGrows(TWO_FULL_HOLDS, a, 2);
    SettleAlone(TWO_FULL_HOLDS + a[..3], 10, 10, 0, 3, [U64_MAX, 10], [0], 0, [10], [0, 0]);
    LogGrows(TWO_FULL_HOLDS, a, 3);
    ReserveAlone(TWO_FULL_HOLDS + a[..4], 10, 0, 0, 3, [10], [0, 0], 10, [10, 10]);
    LogGrows(TWO_FULL_HOLDS, a, 4);
    SettleAlone(TWO_FULL_HOLDS + a[..5], 10, 10, 0, 4, [10, 10], [0, 0], 10, [10], [0, 0, 10]);
    LogGrows(TWO_FULL_HOLDS, a, 5);
    SettleAlone(TWO_FULL_HOLDS + a[..6], 10, 0, 10, 4, [10], [0, 0, 10], 10, [], [0, 0, 10, 10]);
    LogGrows(TWO_FULL_HOLDS, a, 6);
    assert a[..7] == a;
    Overspent(TWO_FULL_HOLDS + a);
  }

  lemma LogGrows(front: seq<Request>, a: seq<Request>, k: nat)
    requires k < |a|
    ensures front + a[..k] + [a[k]] == front + a[..k + 1]
    ensures k == 0 ==> front + [a[0]] == front + a[..1]
  {
  }

  lemma Overspent(log: seq<Request>)
    requires Reached(log, Alone(10, 0, 20, 4, [], [0, 0, 10, 10]), "r")
    ensures var b := Replay(EMPTY_BOOKS, log);
            && Legal(EMPTY_BOOKS, log) && StaysPrudent(EMPTY_BOOKS, log, "r")
            && "r" in b.runs && b.runs["r"].budget == 10 && b.runs["r"].spent == 20 && b.held == []
            && !WithinBudget(b, "r")
  {
    hide Legal, StaysPrudent, Replay;
  }

  /** A name for each height. */
  function Name(k: nat): (id: RunId)
    ensures |id| == k
  {
    seq(k, i => 'a')
  }

  /** A run with nothing to spend, and `k` more, each under the one before. */
  function Tower(k: nat): Runs {
    if k == 0 then map[Name(0) := RunState(0, 0, 0, 0, None)]
    else Tower(k - 1)[Name(k) := RunState(100, 0, 0, 0, Some(Name(k - 1)))]
  }

  function TowerLog(k: nat): seq<Request> {
    if k == 0 then [Open(Name(0), 0, None)] else TowerLog(k - 1) + [Open(Name(k), 100, Some(Name(k - 1)))]
  }

  lemma {:induction false} InTower(k: nat, i: nat)
    ensures Name(i) in Tower(k) <==> i <= k
    ensures i <= k ==>
              Tower(k)[Name(i)] == if i == 0 then RunState(0, 0, 0, 0, None) else RunState(100, 0, 0, 0, Some(Name(i - 1)))
  {
    assert |Name(i)| == i && |Name(k)| == k;
    if k > 0 { InTower(k - 1, i); }
  }

  lemma {:induction false} TowerIsReached(k: nat)
    ensures Reached(TowerLog(k), Books(Tower(k), [], []), Name(0))
  {
    hide Reached;
    if k == 0 {
      assert [] + [Open(Name(0), 0, None)] == TowerLog(0);
      NothingReached(Name(0));
      ReachedMore([], EMPTY_BOOKS, Open(Name(0), 0, None), Books(Tower(0), [], []), Name(0));
    } else {
      TowerIsReached(k - 1);
      InTower(k - 1, k);
      InTower(k - 1, k - 1);
      assert |Name(k)| != |Name(0)|;
      ReachedMore(TowerLog(k - 1), Books(Tower(k - 1), [], []), Open(Name(k), 100, Some(Name(k - 1))),
        Books(Tower(k), [], []), Name(0));
    }
  }

  lemma NothingReached(id: RunId)
    ensures Reached([], EMPTY_BOOKS, id)
  {
  }

  /** The names from a height down to 1. */
  function Downward(h: nat): seq<RunId> {
    seq(h, i requires 0 <= i < h => Name(h - i))
  }

  lemma DownwardIsDistinct(h: nat)
    ensures Distinct(Downward(h)) && forall i :: 0 <= i < h ==> Downward(h)[i] == Name(h - i)
  {
    var ids := Downward(h);
    forall i, j | 0 <= i < j < h ensures ids[i] != ids[j] {
      assert |Name(h - i)| == h - i && |Name(h - j)| == h - j;
    }
  }

  lemma TowerSteps(h: nat, ids: seq<RunId>)
    requires ids == Downward(h)
    ensures forall i :: 0 <= i < h ==> ids[i] in Tower(h)
    ensures forall i :: 0 < i < h ==> Tower(h)[ids[i - 1]].parent == Some(ids[i])
  {
    forall i | 0 <= i < h ensures ids[i] in Tower(h) { InTower(h, h - i); }
    forall i | 0 < i < h ensures Tower(h)[ids[i - 1]].parent == Some(ids[i]) { InTower(h, h - (i - 1)); }
  }

  lemma TowerWalk(h: nat)
    requires 0 < h == MAX_CHAIN_DEPTH
    ensures IsWalk(Tower(h), Name(h), Downward(h))
  {
    var ids := Downward(h);
    DownwardIsDistinct(h);
    TowerSteps(h, ids);
    hide Tower, Name, Downward, Distinct;
    assert ids[0] == Name(h);
  }

  lemma TowerChain(h: nat)
    requires h == MAX_CHAIN_DEPTH
    ensures Chain(Tower(h), Name(h)) == Downward(h)
    ensures forall id :: id in Downward(h) ==> id in Tower(h) && Fits(Tower(h)[id], 5)
  {
    hide Tower, Name, Downward, Chain, IsWalk;
    TowerWalk(h);
    ChainIsWalk(Tower(h), Name(h));
    WalkIsUnique(Tower(h), Name(h), Downward(h), Chain(Tower(h), Name(h)));
    TowerHasRoom(h);
  }

  lemma TowerHasRoom(h: nat)
    ensures forall id :: id in Downward(h) ==> id in Tower(h) && Fits(Tower(h)[id], 5)
  {
    hide Tower, Name;
    forall id | id in Downward(h) ensures id in Tower(h) && Fits(Tower(h)[id], 5) {
      var i :| 0 <= i < h && id == Downward(h)[i];
      InTower(h, h - i);
    }
  }

  lemma TowerIsCut(h: nat)
    requires h == MAX_CHAIN_DEPTH
    ensures var runs := Tower(h);
            && CutAtDepth(runs, Name(h))
            && Name(0) in runs && IsAncestor(runs, Name(h), Name(0)) && !Fits(runs[Name(0)], 5)
            && Applied(runs, Reserve(Name(h), 5)).1.accepted
  {
    var runs := Tower(h);
    InTower(h, 0);
    InTower(h, 1);
    InTower(h, h);
    TowerChain(h);
    hide Chain, Applied, Tower;
    ReserveIsAllOrNothing(runs, Name(h), 5);
    assert Downward(h)[h - 1] == Name(1);
    assert forall id :: id in Downward(h) ==> |id| > 0;
    ChainGoesUp(runs, Name(h), h - 1);
    assert Upward(runs, Name(h), h) == Some(Name(0));
  }

  /** From an empty ledger, 64 runs under one that has nothing to spend: the walk of the
      lowest is cut below it, and a reserve goes through that this ancestor has no room for. */
  lemma TopOfTheTowerIsNotAsked(h: nat)
    requires h == MAX_CHAIN_DEPTH
    ensures var b := Replay(EMPTY_BOOKS, TowerLog(h));
            && Legal(EMPTY_BOOKS, TowerLog(h)) && CutAtDepth(b.runs, Name(h))
            && Name(0) in b.runs && IsAncestor(b.runs, Name(h), Name(0)) && !Fits(b.runs[Name(0)], 5)
            && Applied(b.runs, Reserve(Name(h), 5)).1.accepted
  {
    TowerIsReached(h);
    hide Legal, Replay, StaysPrudent, CutAtDepth, IsAncestor, Applied, Tower, TowerLog;
    TowerIsCut(h);
  }

  const LATE_PARENT := [Open("c", 10, Some("p")), Reserve("c", 5), Open("p", 100, None)]

  /** From an empty ledger, opening a parent after its child and its hold: the child's chain
      changes under the hold, and the parent's counter misses an amount that now rolls up
      into it. */
  lemma LateParentBreaksConservation()
    ensures var b := Replay(EMPTY_BOOKS, LATE_PARENT);
            && b.held == [Amount("c", 5)]
            && "p" in b.runs && b.runs["p"].reserved == 0 && Total(b.held, b.runs, "p") == 5
  {
    var child, parent := RunState(10, 5, 0, 1, Some("p")), RunState(100, 0, 0, 0, None);
    var b1 := Books(map["c" := RunState(10, 0, 0, 0, Some("p"))], [], []);
    var b2 := Books(map["c" := child], [Amount("c", 5)], []);
    var b3 := Books(map["c" := child, "p" := parent], [Amount("c", 5)], []);
    assert Next(EMPTY_BOOKS, LATE_PARENT[0]) == b1 && Next(b2, LATE_PARENT[2]) == b3;
    HoldOfChild(b1, b2);
    LateParentReplay(b1, b2, b3);
    ChildRollsUp(b3.runs);
    hide Chain, Replay;
    assert b3.held[1..] == [];
  }

  lemma HoldOfChild(b1: Books, b2: Books)
    requires b1 == Books(map["c" := RunState(10, 0, 0, 0, Some("p"))], [], [])
    requires b2 == Books(map["c" := RunState(10, 5, 0, 1, Some("p"))], [Amount("c", 5)], [])
    ensures Next(b1, LATE_PARENT[1]) == b2
  {
    assert "p" != "c";
    assert ChainFrom(b1.runs, Some("c"), []) == ChainFrom(b1.runs, Some("p"), ["c"]) == ["c"];
    ReserveIsAllOrNothing(b1.runs, "c", 5);
  }

  lemma ChildRollsUp(runs: Runs)
    requires "c" in runs && "p" in runs && runs["c"].parent == Some("p") && runs["p"].parent == None
    ensures Chain(runs, "c") == ["c", "p"]
  {
    assert "p" != "c";
    assert [] + ["c"] == ["c"] && ["c"] + ["p"] == ["c", "p"];
    assert ChainFrom(runs, Some("c"), []) == ChainFrom(runs, Some("p"), ["c"]);
    assert ChainFrom(runs, Some("p"), ["c"]) == ChainFrom(runs, None, ["c", "p"]);
    assert ChainFrom(runs, None, ["c", "p"]) == ["c", "p"];
  }

  lemma LateParentReplay(b1: Books, b2: Books, b3: Books)
    requires Next(EMPTY_BOOKS, LATE_PARENT[0]) == b1 && Next(b1, LATE_PARENT[1]) == b2 && Next(b2, LATE_PARENT[2]) == b3
    ensures Replay(EMPTY_BOOKS, LATE_PARENT) == b3
  {
    hide Next;
    var log := LATE_PARENT;
    assert log[1..][0] == log[1] && log[1..][1..] == log[2..] && log[2..][0] == log[2] && log[2..][1..] == [];
    assert Replay(b2, log[2..]) == Replay(b3, []);
    assert Replay(b1, log[1..]) == Replay(b2, log[2..]);
  }
}
