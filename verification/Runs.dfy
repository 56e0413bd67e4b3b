/** Whole runs of the cache: what one operation does to a snapshot, and what follows for every run. */
module Runs {
  import opened Bits
  import opened Options
  import opened ZCacheIndex
  import opened ZCacheWalk
  import opened TagState
  import opened Fills

  /** What a run consists of: lookups, fills and writes of lines (with slots that are invalidated
      between the walk and the insertion of a miss), invalidations, and reservoir samples. */
  datatype Op = Get(key: Request) | Put(key: Request, line: Line, between: seq<nat>) | Drop(slot: nat) | Sample

  /** What a run depends on: the hash functions, the depth and the cap of the walk, and the compressor's
      ratio cap. */
  datatype Config = Config(ix: H3, walkLevels: nat, numCandidates: nat, cap: int)

  ghost predicate OpOk(op: Op, n: nat) {
    && (op.Put? ==> forall i :: 0 <= i < |op.between| ==> op.between[i] < n)
    && (op.Drop? ==> op.slot < n)
  }

  // ---------------------------------------------------------------- one operation

  function Lookup<K, V>(m: map<K, V>, k: K): Option<V> {
    if k in m then Some(m[k]) else None
  }

  /** A write hit changes the key's line and nothing else. */
  ghost predicate Overwritten(before: Snapshot, after: Snapshot, key: Key, line: Line) {
    && key in Data(before) && Data(after) == Data(before)[key := line]
    && after.held == before.held && after.bins == before.bins
  }

  /** Candidate v of the walk for an address is the victim. */
  ghost predicate VictimIn(cfg: Config, s: Snapshot, addr: nat, v: nat) {
    && Shape(cfg.ix, s.blks) && |s.lastTouch| == |s.blks|
    && var g := GraphOf(cfg.ix, s.blks, addr);
       IsVictim(g, s.lastTouch, Candidates(g, cfg.numCandidates, cfg.walkLevels), v)
  }

  /** The keys in the victim's slot and in the slots invalidated before the insertion. */
  ghost function KeysCleared(cfg: Config, s: Snapshot, addr: nat, v: nat, between: seq<nat>): set<Key>
    requires VictimIn(cfg, s, addr, v)
  {
    KeysIn(s.blks, [SlotAt(GraphOf(cfg.ix, s.blks, addr), v)] + between)
  }

  /** A miss loses the keys cleared before the insertion and those forced out by the fill. */
  ghost predicate MissedAt(cfg: Config, before: Snapshot, after: Snapshot, r: Request, line: Line, between: seq<nat>,
                           v: nat, forced: seq<Eviction>, stored: bool)
  {
    && VictimIn(cfg, before, r.address, v)
    && Missed(before, after, KeyFor(cfg.ix, r), line, LineSize(line, cfg.cap),
              KeysCleared(cfg, before, r.address, v, between), forced, stored)
  }

  /** A miss loses at most one key per slot cleared, and at most 16 to the fill. */
  lemma MissBounds(cfg: Config, before: Snapshot, after: Snapshot, r: Request, line: Line, between: seq<nat>,
                   v: nat, forced: seq<Eviction>, stored: bool)
    requires MissedAt(cfg, before, after, r, line, between, v, forced, stored)
    ensures |KeysCleared(cfg, before, r.address, v, between)| <= 1 + |between| && |KeysOf(forced)| <= 16
  {
    LossBounds(before.blks, [SlotAt(GraphOf(cfg.ix, before.blks, r.address), v)] + between);
    ForcedBounds(forced);
  }

  ghost predicate PutStep(cfg: Config, before: Snapshot, after: Snapshot, r: Request, line: Line, between: seq<nat>) {
    if KeyFor(cfg.ix, r) in Data(before) then Overwritten(before, after, KeyFor(cfg.ix, r), line)
    else exists v: nat, forced, stored :: MissedAt(cfg, before, after, r, line, between, v, forced, stored)
  }

  /** Exactly what an operation answers and does: a lookup answers from the map and, like a sample,
      changes no block and no holding; an invalidation takes its slot's key; a put overwrites or misses. */
  ghost predicate Stepped(cfg: Config, op: Op, before: Snapshot, after: Snapshot, result: Option<seq<byte>>) {
    match op
    case Get(r) =>
      SameBlocks(before, after) && after.bins == before.bins && result == Lookup(Data(before), KeyFor(cfg.ix, r))
    case Put(r, line, between) => result.None? && PutStep(cfg, before, after, r, line, between)
    case Drop(slot) => result.None? && SlotCleared(before, after, slot)
    case Sample => result.None? && SameBlocks(before, after)
  }

  ghost predicate SameBlocks(before: Snapshot, after: Snapshot) {
    after.blks == before.blks && after.held == before.held
  }

  ghost predicate SlotCleared(before: Snapshot, after: Snapshot, slot: nat) {
    && slot < |before.blks|
    && after.blks == Dropped(before.blks, slot)
    && Data(after) == Without(Data(before), before.blks[slot])
    && after.held == Without(before.held, before.blks[slot])
    && after.bins == before.bins
  }

  /** The states and the answers of a run. */
  ghost predicate Follows(cfg: Config, ops: seq<Op>, trace: seq<Snapshot>, results: seq<Option<seq<byte>>>) {
    && |trace| == |ops| + 1 && |results| == |ops|
    && forall i :: 0 <= i < |ops| ==> Stepped(cfg, ops[i], trace[i], trace[i + 1], results[i])
  }

  ghost predicate Empty(s: Snapshot) { Data(s) == map[] && s.held == map[] }

  lemma FollowsPush(cfg: Config, ops: seq<Op>, i: nat, trace: seq<Snapshot>, results: seq<Option<seq<byte>>>,
                    after: Snapshot, result: Option<seq<byte>>)
    requires i < |ops| && Follows(cfg, ops[..i], trace, results)
    requires Stepped(cfg, ops[i], trace[i], after, result)
    ensures Follows(cfg, ops[..i + 1], trace + [after], results + [result])
  {
    var trace', results' := trace + [after], results + [result];
    forall j | 0 <= j < i + 1 ensures Stepped(cfg, ops[..i + 1][j], trace'[j], trace'[j + 1], results'[j]) {
      if j < i { assert Stepped(cfg, ops[..i][j], trace[j], trace[j + 1], results[j]); }
    }
  }

  /** A put leaves its key with its line, and changes no other key's line. */
  lemma PutKeeps(cfg: Config, before: Snapshot, after: Snapshot, r: Request, line: Line, between: seq<nat>)
    requires PutStep(cfg, before, after, r, line, between)
    ensures var key := KeyFor(cfg.ix, r);
            key in Data(after) && SubMap(Data(after), Data(before)[key := line])
  {
    if KeyFor(cfg.ix, r) !in Data(before) {
      var v: nat, forced, stored :| MissedAt(cfg, before, after, r, line, between, v, forced, stored);
      MinusSub(Data(before), KeysCleared(cfg, before, r.address, v, between), KeyFor(cfg.ix, r), line, KeysOf(forced));
    }
  }

  lemma MinusSub<K, V>(m: map<K, V>, lost: set<K>, k: K, v: V, forced: set<K>)
    requires k !in forced
    ensures k in (m - lost)[k := v] - forced && SubMap((m - lost)[k := v] - forced, m[k := v])
  {
  }

  // ---------------------------------------------------------------- what lookups return

  ghost predicate SubMap<K, V>(a: map<K, V>, b: map<K, V>) {
    forall k :: k in a ==> k in b && a[k] == b[k]
  }

  /** The last line put under every key. */
  ghost function Latest(ix: H3, ops: seq<Op>): map<Key, seq<byte>> {
    if |ops| == 0 then map[]
    else
      var before, op := Latest(ix, ops[..|ops| - 1]), ops[|ops| - 1];
      if op.Put? then before[KeyFor(ix, op.key) := op.line] else before
  }

  lemma LatestStep(cfg: Config, ops: seq<Op>, i: nat, before: Snapshot, after: Snapshot,
                   result: Option<seq<byte>>)
    requires i < |ops| && SubMap(Data(before), Latest(cfg.ix, ops[..i])) && Stepped(cfg, ops[i], before, after, result)
    ensures SubMap(Data(after), Latest(cfg.ix, ops[..i + 1]))
  {
    assert ops[..i + 1][..i] == ops[..i] && ops[..i + 1][i] == ops[i];
    if ops[i].Put? {
      PutKeeps(cfg, before, after, ops[i].key, ops[i].line, ops[i].between);
    }
  }

  /** Whatever is stored at any point of a run from an empty cache is what was last put there. */
  lemma {:induction false} RunLatest(cfg: Config, ops: seq<Op>, trace: seq<Snapshot>,
                                     results: seq<Option<seq<byte>>>, i: nat)
    requires Follows(cfg, ops, trace, results) && i <= |ops| && Data(trace[0]) == map[]
    ensures SubMap(Data(trace[i]), Latest(cfg.ix, ops[..i]))
  {
    if i > 0 {
      RunLatest(cfg, ops, trace, results, i - 1);
      assert Stepped(cfg, ops[i - 1], trace[i - 1], trace[i], results[i - 1]);
      LatestStep(cfg, ops, i - 1, trace[i - 1], trace[i], results[i - 1]);
    }
  }

  /** A lookup that hits returns the last line put under its key. */
  ghost predicate Answered(ix: H3, ops: seq<Op>, i: nat, result: Option<seq<byte>>)
    requires i < |ops|
  {
    ops[i].Get? && result.Some? ==>
      var key := KeyFor(ix, ops[i].key);
      key in Latest(ix, ops[..i]) && result.value == Latest(ix, ops[..i])[key]
  }

  lemma RunAnswers(cfg: Config, ops: seq<Op>, trace: seq<Snapshot>, results: seq<Option<seq<byte>>>, i: nat)
    requires Follows(cfg, ops, trace, results) && i < |ops| && Data(trace[0]) == map[]
    ensures Answered(cfg.ix, ops, i, results[i])
  {
    RunLatest(cfg, ops, trace, results, i);
    assert Stepped(cfg, ops[i], trace[i], trace[i + 1], results[i]);
  }

  /** A lookup that follows a put of the same key hits and returns the line. */
  lemma PutThenGet(cfg: Config, ops: seq<Op>, trace: seq<Snapshot>, results: seq<Option<seq<byte>>>, i: nat)
    requires Follows(cfg, ops, trace, results) && i + 1 < |ops|
    requires ops[i].Put? && ops[i + 1].Get? && KeyFor(cfg.ix, ops[i + 1].key) == KeyFor(cfg.ix, ops[i].key)
    ensures results[i + 1] == Some(ops[i].line)
  {
    assert Stepped(cfg, ops[i], trace[i], trace[i + 1], results[i]);
    assert Stepped(cfg, ops[i + 1], trace[i + 1], trace[i + 2], results[i + 1]);
    PutKeeps(cfg, trace[i], trace[i + 1], ops[i].key, ops[i].line, ops[i].between);
  }

  // ---------------------------------------------------------------- how keys come and go

  /** The ways a key can leave: its slot is invalidated, or a miss of another key takes its slot,
      invalidates it in between, or forces it out of the pool. */
  ghost predicate Lost(cfg: Config, op: Op, before: Snapshot, after: Snapshot, k: Key) {
    || (op.Drop? && op.slot < |before.blks| && before.blks[op.slot].valid && KeyOf(before.blks[op.slot]) == k)
    || (op.Put? && KeyFor(cfg.ix, op.key) != k && KeyFor(cfg.ix, op.key) !in Data(before)
        && MissTakes(cfg, before, after, op.key, op.line, op.between, k))
  }

  ghost predicate MissTakes(cfg: Config, before: Snapshot, after: Snapshot, r: Request, line: Line, between: seq<nat>,
                            k: Key)
  {
    exists v: nat, forced, stored :: MissedAt(cfg, before, after, r, line, between, v, forced, stored)
      && (k in KeysCleared(cfg, before, r.address, v, between) || k in KeysOf(forced))
  }

  lemma MissCause(cfg: Config, before: Snapshot, after: Snapshot, r: Request, line: Line, between: seq<nat>, k: Key)
    requires PutStep(cfg, before, after, r, line, between) && k in Data(before)
    requires KeyFor(cfg.ix, r) !in Data(before)
    ensures k !in Data(after) <==> MissTakes(cfg, before, after, r, line, between, k)
  {
    var v: nat, forced, stored :| MissedAt(cfg, before, after, r, line, between, v, forced, stored);
    assert k != KeyFor(cfg.ix, r);
  }

  /** A key leaves in no other way: not by a lookup, a sample, a write hit or its own put. */
  lemma LossCause(cfg: Config, op: Op, before: Snapshot, after: Snapshot, result: Option<seq<byte>>, k: Key)
    requires Stepped(cfg, op, before, after, result) && k in Data(before)
    ensures k !in Data(after) <==> Lost(cfg, op, before, after, k)
  {
    if op.Put? && KeyFor(cfg.ix, op.key) !in Data(before) {
      MissCause(cfg, before, after, op.key, op.line, op.between, k);
    }
  }

  /** A key enters only by a put, and a stored key has been there ever since such a put. */
  lemma PresentSince(cfg: Config, ops: seq<Op>, trace: seq<Snapshot>,
                     results: seq<Option<seq<byte>>>, j: nat, k: Key) returns (i: nat)
    requires Follows(cfg, ops, trace, results) && j <= |ops| && Data(trace[0]) == map[] && k in Data(trace[j])
    ensures i < j && PutOf(cfg.ix, ops[i], k) && forall m :: i < m <= j ==> k in Data(trace[m])
  {
    forall m | 0 <= m < |ops| ensures EntersAt(cfg.ix, ops[m], trace[m], trace[m + 1], k) {
      EntersByPut(cfg, ops[m], trace[m], trace[m + 1], results[m], k);
    }
    i := SincePut(cfg.ix, ops, trace, j, k);
  }

  lemma {:induction false} SincePut(ix: H3, ops: seq<Op>, trace: seq<Snapshot>, j: nat, k: Key) returns (i: nat)
    requires j <= |ops| < |trace| && k !in Data(trace[0]) && k in Data(trace[j])
    requires forall m :: 0 <= m < |ops| ==> EntersAt(ix, ops[m], trace[m], trace[m + 1], k)
    ensures i < j && PutOf(ix, ops[i], k) && forall m :: i < m <= j ==> k in Data(trace[m])
  {
    assert EntersAt(ix, ops[j - 1], trace[j - 1], trace[j], k);
    if k in Data(trace[j - 1]) && !PutOf(ix, ops[j - 1], k) {
      i := SincePut(ix, ops, trace, j - 1, k);
    } else {
      i := j - 1;
    }
  }

  ghost predicate EntersAt(ix: H3, op: Op, before: Snapshot, after: Snapshot, k: Key) {
    k in Data(after) ==> k in Data(before) || PutOf(ix, op, k)
  }

  ghost predicate PutOf(ix: H3, op: Op, k: Key) { op.Put? && KeyFor(ix, op.key) == k }

  lemma EntersByPut(cfg: Config, op: Op, before: Snapshot, after: Snapshot, result: Option<seq<byte>>, k: Key)
    requires Stepped(cfg, op, before, after, result)
    ensures EntersAt(cfg.ix, op, before, after, k)
  {
    if op.Put? { PutKeeps(cfg, before, after, op.key, op.line, op.between); }
  }

  // ---------------------------------------------------------------- what regions hold

  /** The line of the put that last inserted every key, that is, of its last put that missed. */
  ghost function Inserted(ix: H3, ops: seq<Op>, trace: seq<Snapshot>, i: nat): map<Key, Line>
    requires i <= |ops| < |trace|
  {
    if i == 0 then map[]
    else InsertedBy(ix, ops[i - 1], trace[i - 1], Inserted(ix, ops, trace, i - 1))
  }

  ghost function InsertedBy(ix: H3, op: Op, before: Snapshot, lines: map<Key, Line>): map<Key, Line> {
    if op.Put? && KeyFor(ix, op.key) !in Data(before) then lines[KeyFor(ix, op.key) := op.line] else lines
  }

  /** A region of the line's size with the line's first bytes. */
  ghost predicate FilledFrom(h: Holding, line: Line, cap: int) {
    h.size == LineSize(line, cap) && h.bytes == line[..h.size]
  }

  ghost predicate HeldFrom(held: map<Key, Holding>, lines: map<Key, Line>, cap: int) {
    forall k :: k in held ==> k in lines && FilledFrom(held[k], lines[k], cap)
  }

  lemma MissHeld(cfg: Config, before: Snapshot, after: Snapshot, r: Request, line: Line, between: seq<nat>,
                 lines: map<Key, Line>)
    requires KeyFor(cfg.ix, r) !in Data(before) && PutStep(cfg, before, after, r, line, between)
    requires HeldFrom(before.held, lines, cfg.cap)
    ensures HeldFrom(after.held, lines[KeyFor(cfg.ix, r) := line], cfg.cap)
  {
    var v: nat, forced, stored :| MissedAt(cfg, before, after, r, line, between, v, forced, stored);
    forall k | k in after.held && k != KeyFor(cfg.ix, r) ensures k in before.held && after.held[k] == before.held[k] {
      assert k in after.held - {KeyFor(cfg.ix, r)};
    }
  }

  lemma FilledStep(cfg: Config, op: Op, before: Snapshot, after: Snapshot, result: Option<seq<byte>>,
                   lines: map<Key, Line>)
    requires Stepped(cfg, op, before, after, result) && HeldFrom(before.held, lines, cfg.cap)
    ensures HeldFrom(after.held, InsertedBy(cfg.ix, op, before, lines), cfg.cap)
  {
    if op.Put? && KeyFor(cfg.ix, op.key) !in Data(before) {
      MissHeld(cfg, before, after, op.key, op.line, op.between, lines);
    }
  }

  /** At every point of a run from an empty cache, every region has the size of, and holds the first
      bytes of, the line whose put last inserted its key. */
  lemma {:induction false} RunFilled(cfg: Config, ops: seq<Op>, trace: seq<Snapshot>,
                                     results: seq<Option<seq<byte>>>, i: nat)
    requires Follows(cfg, ops, trace, results) && i <= |ops| && trace[0].held == map[]
    ensures HeldFrom(trace[i].held, Inserted(cfg.ix, ops, trace, i), cfg.cap)
  {
    if i > 0 {
      RunFilled(cfg, ops, trace, results, i - 1);
      FilledStep(cfg, ops[i - 1], trace[i - 1], trace[i], results[i - 1], Inserted(cfg.ix, ops, trace, i - 1));
    }
  }
}
