// The filter as a value: configuration, bucket table, occupancy counters,
// item count and victim, and every operation of CF.cpp as a function from
// the old state to the new one. The class in filter.dfy is proved to
// compute exactly these functions; walk.dfy, scrub.dfy and query.dfy prove
// what they promise.
//
// Randomness: each `rand()` of the source is an element of an injected
// stream `rnd: nat -> nat` of raw values; `c` is the index of the next one.

module CuckooModel {
  import opened Bits
  import opened Hashing

  /** The sentinel `-1` of an empty cell. */
  const Empty: int := -1

  /** Rounds of the cuckoo walk before the carried fingerprint becomes the victim. */
  const MaxRounds: int := 1000

  /** The constructor's arguments: mode, cf_size, cf_cells, f, scrub_iterations. */
  datatype Config = Config(mode: int, size: nat, cells: nat, f: nat, scrubIter: int)

  /** fp_size = 1 << f, the small fingerprint range. */
  function FpSize(cfg: Config): nat
  {
    Pow2(cfg.f)
  }

  /** fp_bsize = 1 << ((f * 4) / 3), the large fingerprint range every stored fingerprint lies in. */
  function FpBSize(cfg: Config): nat
  {
    Pow2((cfg.f * 4) / 3)
  }

  /**
   * What the code needs of its configuration: a power-of-two table size (so that
   * `p ^ hash(...)` stays a bucket index), a cell count an `unsigned char` can
   * count up to, and fingerprint widths that fit an `int`.
   */
  predicate ValidConfig(cfg: Config)
  {
    IsPow2(cfg.size) && 1 <= cfg.cells <= 255 && 1 <= cfg.f && (cfg.f * 4) / 3 <= 30
  }

  /** The table as values: cf_size buckets of cf_cells cells, fp_count, cf_num_items and the victim pair. */
  datatype State = State(buckets: seq<seq<int>>, counts: seq<int>, items: int,
                         victimPointer: int, victimFingerprint: int)

  predicate Shaped(cfg: Config, s: State)
  {
    && |s.buckets| == cfg.size
    && |s.counts| == cfg.size
    && (forall b :: 0 <= b < cfg.size ==> |s.buckets[b]| == cfg.cells)
    && (forall b :: 0 <= b < cfg.size ==> 0 <= s.counts[b] < 256)
  }

  /** The state the constructor builds (lines 20-53). */
  function Init(cfg: Config): (s: State)
    requires ValidConfig(cfg)
    ensures Shaped(cfg, s)
  {
    State(seq(cfg.size, _ => seq(cfg.cells, _ => Empty)),
          seq(cfg.size, _ => if cfg.mode == 1 then 0 else cfg.cells),
          0, -1, -1)
  }

  /** `++` on an `unsigned char`. */
  function Inc8(x: int): (r: int)
    requires 0 <= x < 256
    ensures 0 <= r < 256
    ensures r == if x == 255 then 0 else x + 1
  {
    (x + 1) % 256
  }

  /** `--` on an `unsigned char`. */
  function Dec8(x: int): (r: int)
    requires 0 <= x < 256
    ensures 0 <= r < 256
    ensures r == if x == 0 then 255 else x - 1
  {
    (x - 1) % 256
  }

  /** Writing v into cell j of bucket b, nothing else. */
  function Put(s: State, b: nat, j: nat, v: int): State
    requires b < |s.buckets| && j < |s.buckets[b]|
  {
    s.(buckets := s.buckets[b := s.buckets[b][j := v]])
  }

  /** A placement: the write plus `fp_count[b]++` and `cf_num_items++`. */
  function Fill(cfg: Config, s: State, b: nat, j: nat, v: int): State
    requires Shaped(cfg, s) && b < cfg.size && j < cfg.cells
  {
    Put(s, b, j, v).(counts := s.counts[b := Inc8(s.counts[b])], items := s.items + 1)
  }

  /** The key's first bucket, `hash(key, 2, cf_size)`. */
  function Primary(cfg: Config, key: uint64): nat
    requires cfg.size > 0
  {
    Hash(key, 2, cfg.size)
  }

  /** The key's stored fingerprint, `hash(key, 1, fp_bsize)`. */
  function Fingerprint(cfg: Config, key: uint64): nat
  {
    Hash(key, 1, FpBSize(cfg))
  }

  /** The other bucket of fingerprint fp's pair when it sits in b: `b ^ hash(fp, 2, cf_size)`. */
  function Partner(cfg: Config, b: nat, fp: int): (r: nat)
    requires ValidConfig(cfg) && b < cfg.size
    ensures r < cfg.size
  {
    var h := Hash(ToUint64(fp), 2, cfg.size);
    XorBelow(b, h, cfg.size);
    Xor(b, h)
  }

  /**
   * The two buckets probed at one cell index (lines 110-117). On coin 0 p stays
   * and p1 is its partner; on coin 1 p moves to its partner and p1 is computed
   * from the moved p, so both name the same bucket.
   */
  function Candidates(cfg: Config, p: nat, fp: int, coin: int): (r: (nat, nat))
    requires ValidConfig(cfg) && p < cfg.size
    ensures r.0 < cfg.size && r.1 < cfg.size
    ensures r.0 == p || r.0 == Partner(cfg, p, fp)
    ensures r.1 == p || r.1 == Partner(cfg, p, fp)
    ensures coin == 0 ==> r.0 == p && r.1 == Partner(cfg, p, fp)
    ensures coin != 0 ==> r.0 == r.1 == Partner(cfg, p, fp)
  {
    var h := Hash(ToUint64(fp), 2, cfg.size);
    SmallMod(p, cfg.size);
    XorBelow(p, h, cfg.size);
    if coin == 0 then
      var q := p % cfg.size;
      (q, Xor(q, h))
    else
      var q := Xor(p, h);
      SmallMod(q, cfg.size);
      (q, q % cfg.size)
  }

  /** The bucket an eviction writes into: `(p ^ (j * hash(fp, 2, cf_size))) % cf_size` (lines 211-213). */
  function EvictionBucket(cfg: Config, p: nat, fp: int, j: int): (r: nat)
    requires ValidConfig(cfg) && p < cfg.size && 0 <= j <= 1
    ensures r == p || r == Partner(cfg, p, fp)
    ensures j == 0 ==> r == p
    ensures j == 1 ==> r == Partner(cfg, p, fp)
  {
    var h := Hash(ToUint64(fp), 2, cfg.size);
    var m := j * h;
    if j == 0 then
      assert m == 0 && Xor(p, m) == p;
      SmallMod(p, cfg.size);
      Xor(p, m) % cfg.size
    else
      assert m == h;
      XorBelow(p, h, cfg.size);
      SmallMod(Xor(p, h), cfg.size);
      Xor(p, m) % cfg.size
  }

  /**
   * The admission tier (lines 122-203): a plain insertion (si == 0) takes any
   * empty cell; a scrub reinsertion takes a bucket only below cf_cells - 1 in
   * rounds before si and only below cf_cells from round si on.
   */
  predicate Admits(cfg: Config, count: int, si: int, t: int)
  {
    if si == 0 then true
    else if t < si then count < cfg.cells - 1
    else count < cfg.cells
  }

  /**
   * The result of a walk: the new state, the return value of insert_scrub
   * (the round that placed the fingerprint, or -1), the bucket of the final
   * placement (or the victim bucket), whether that placement came from the
   * eviction step, and the index of the next unused random value.
   */
  datatype Outcome = Outcome(s: State, ret: int, bucket: nat, evicted: bool, cursor: nat)

  /**
   * insert_scrub(p, fp, si) (lines 95-240) from round t and cell index jj on.
   * Each cell index draws a coin and probes its candidates; when a round finds
   * no admitted empty cell, a coin and a slot choose a cell of the pair that fp
   * overwrites, and the displaced fingerprint is carried from that bucket into
   * the next round. After round 1000 the carried pair becomes the victim.
   */
  function Walk(cfg: Config, s: State, p: nat, fp: int, si: int, t: int, jj: nat,
                rnd: nat -> nat, c: nat): (o: Outcome)
    requires ValidConfig(cfg) && Shaped(cfg, s) && p < cfg.size && 1 <= t && jj <= cfg.cells
    ensures Shaped(cfg, o.s) && o.bucket < cfg.size && o.cursor >= c
    ensures o.ret == -1 || t <= o.ret <= MaxRounds
    decreases MaxRounds + 1 - t, cfg.cells - jj, 1
  {
    if t > MaxRounds then
      Outcome(s.(victimPointer := p, victimFingerprint := fp), -1, p, false, c)
    else if jj < cfg.cells then
      Scan(cfg, s, p, fp, si, t, jj, rnd, c)
    else
      Evict(cfg, s, p, fp, si, t, rnd, c)
  }

  /** Cell index jj of round t: a coin picks the candidate pair, the first admitted empty cell takes fp. */
  function Scan(cfg: Config, s: State, p: nat, fp: int, si: int, t: int, jj: nat,
                rnd: nat -> nat, c: nat): (o: Outcome)
    requires ValidConfig(cfg) && Shaped(cfg, s) && p < cfg.size && 1 <= t <= MaxRounds && jj < cfg.cells
    ensures Shaped(cfg, o.s) && o.bucket < cfg.size && o.cursor >= c
    ensures o.ret == -1 || t <= o.ret <= MaxRounds
    decreases MaxRounds + 1 - t, cfg.cells - jj, 0
  {
    var (q, q1) := Candidates(cfg, p, fp, rnd(c) % 2);
    if Admits(cfg, s.counts[q], si, t) && s.buckets[q][jj] == Empty then
      Outcome(Fill(cfg, s, q, jj, fp), t, q, false, c + 1)
    else if Admits(cfg, s.counts[q1], si, t) && s.buckets[q1][jj] == Empty then
      Outcome(Fill(cfg, s, q1, jj, fp), t, q1, false, c + 1)
    else
      Walk(cfg, s, q, fp, si, t, jj + 1, rnd, c + 1)
  }

  /**
   * The end of round t: a coin picks a bucket of the pair and a draw picks its
   * slot; fp goes there, and a fingerprint it displaces is carried into round t + 1.
   */
  function Evict(cfg: Config, s: State, p: nat, fp: int, si: int, t: int,
                 rnd: nat -> nat, c: nat): (o: Outcome)
    requires ValidConfig(cfg) && Shaped(cfg, s) && p < cfg.size && 1 <= t <= MaxRounds
    ensures Shaped(cfg, o.s) && o.bucket < cfg.size && o.cursor >= c
    ensures o.ret == -1 || t <= o.ret <= MaxRounds
    decreases MaxRounds + 1 - t, 0, 0
  {
    var pe := EvictionBucket(cfg, p, fp, rnd(c) % 2);
    var slot := rnd(c + 1) % cfg.cells;
    var pushed := s.buckets[pe][slot];
    if pushed == Empty then
      Outcome(Fill(cfg, s, pe, slot, fp), t, pe, true, c + 2)
    else
      Walk(cfg, Put(s, pe, slot, fp), pe, pushed, si, t + 1, 0, rnd, c + 2)
  }

  /** insert(key) (lines 75-85): the walk of the key's fingerprint from its first bucket, plain admission. */
  function Insert(cfg: Config, s: State, key: uint64, rnd: nat -> nat, c: nat): Outcome
    requires ValidConfig(cfg) && Shaped(cfg, s)
  {
    Walk(cfg, s, Primary(cfg, key) % cfg.size, Fingerprint(cfg, key), 0, 1, 0, rnd, c)
  }

  /** The removal a scrub starts with (lines 275-279). */
  function Clear(cfg: Config, s: State, b: nat, j: nat): State
    requires Shaped(cfg, s) && b < cfg.size && j < cfg.cells
  {
    Put(s, b, j, Empty).(counts := s.counts[b := Dec8(s.counts[b])], items := s.items - 1)
  }

  /** The result of a scrub: new state, next random index, and the fingerprints whose reinsertion failed. */
  datatype ScrubOutcome = ScrubOutcome(s: State, cursor: nat, lost: multiset<int>)

  /** The fingerprint in cell q of bucket p taken out (lines 275-279) and walked back in from p with the scrub threshold (line 281). */
  function Reinsert(cfg: Config, s: State, p: nat, q: nat, rnd: nat -> nat, c: nat): (o: Outcome)
    requires ValidConfig(cfg) && Shaped(cfg, s) && p < cfg.size && q < cfg.cells
    ensures Shaped(cfg, o.s) && o.cursor >= c
  {
    Walk(cfg, Clear(cfg, s, p, q), p, s.buckets[p][q], cfg.scrubIter, 1, 0, rnd, c)
  }

  /** What one reinsertion of a scrub loses: the victim's fingerprint when it failed, else nothing. */
  function Lost(r: Outcome): (m: multiset<int>)
    ensures |m| <= 1
    ensures m == multiset{} <==> r.ret != -1
  {
    if r.ret == -1 then multiset{r.s.victimFingerprint} else multiset{}
  }

  /**
   * scrub() (lines 248-284) from bucket p on: a bucket whose fp_count equals
   * cf_cells gives up the fingerprint in cell `picks(p) % cf_cells`, which is
   * reinserted from that bucket with the configured scrub threshold.
   */
  function ScrubFrom(cfg: Config, s: State, p: nat, picks: nat -> nat, rnd: nat -> nat, c: nat): (o: ScrubOutcome)
    requires ValidConfig(cfg) && Shaped(cfg, s) && p <= cfg.size
    ensures Shaped(cfg, o.s) && o.cursor >= c
    decreases cfg.size - p
  {
    if p == cfg.size then ScrubOutcome(s, c, multiset{})
    else if s.counts[p] == cfg.cells then
      var r := Reinsert(cfg, s, p, picks(p) % cfg.cells, rnd, c);
      var rest := ScrubFrom(cfg, r.s, p + 1, picks, rnd, r.cursor);
      rest.(lost := rest.lost + Lost(r))
    else
      ScrubFrom(cfg, s, p + 1, picks, rnd, c)
  }

  /** Bucket row after removing cell c and moving the later cells one place forward (lines 301-312). */
  function Compact(row: seq<int>, c: nat): (r: seq<int>)
    requires c < |row|
    ensures |r| == |row| && r[|r| - 1] == Empty
    ensures forall i :: 0 <= i < c ==> r[i] == row[i]
    ensures forall i :: c <= i < |row| - 1 ==> r[i] == row[i + 1]
  {
    row[..c] + row[c + 1..] + [Empty]
  }

  /** random_remove() (lines 291-313) once it has drawn the non-empty cell (b, c). */
  function RemoveAt(cfg: Config, s: State, b: nat, c: nat): State
    requires Shaped(cfg, s) && b < cfg.size && c < cfg.cells
  {
    s.(buckets := s.buckets[b := Compact(s.buckets[b], c)],
       counts := s.counts[b := Dec8(s.counts[b])],
       items := s.items - 1)
  }

  /** The width a probe of bucket b reduces fingerprints to (lines 328, 344): large unless b counts as full. */
  function Width(cfg: Config, s: State, b: nat): nat
    requires Shaped(cfg, s) && b < cfg.size
  {
    if s.counts[b] < cfg.cells then FpBSize(cfg) else FpSize(cfg)
  }

  /** Probe j of a query (lines 335-353): bucket `h2(key) ^ (j * h2(fp))` has a cell matching under its width. */
  predicate Probe(cfg: Config, s: State, key: uint64, j: int)
    requires ValidConfig(cfg) && Shaped(cfg, s) && 0 <= j <= 1
  {
    var fp := Hash(key, 1, FpBSize(cfg)) % FpBSize(cfg);
    var b := Xor(Hash(key, 2, cfg.size), j * Hash(ToUint64(fp), 2, cfg.size)) % cfg.size;
    var w := Width(cfg, s, b);
    var target := Hash(key, 1, w) % w;
    exists jj :: 0 <= jj < cfg.cells && CRem(s.buckets[b][jj], w) == target
  }

  /** query(key) (lines 320-356): the victim pair under the first bucket's width, then the two probes. */
  predicate Lookup(cfg: Config, s: State, key: uint64)
    requires ValidConfig(cfg) && Shaped(cfg, s)
  {
    var p := Hash(key, 2, cfg.size);
    var w := Width(cfg, s, p);
    var fp := Hash(key, 1, w) % w;
    (fp == s.victimFingerprint && p == s.victimPointer) || Probe(cfg, s, key, 0) || Probe(cfg, s, key, 1)
  }

  /** The fingerprints held by one bucket: its cells without the empty ones. */
  function Live(row: seq<int>): multiset<int>
  {
    multiset(row)[Empty := 0]
  }

  function Stored(bs: seq<seq<int>>): multiset<int>
  {
    StoredPrefix(bs, |bs|)
  }

  /** The fingerprints held by the first n buckets. */
  function StoredPrefix(bs: seq<seq<int>>, n: nat): multiset<int>
    requires n <= |bs|
  {
    if n == 0 then multiset{} else StoredPrefix(bs, n - 1) + Live(bs[n - 1])
  }

  /** The adaptive-mode bookkeeping: fp_count[b] counts bucket b's fingerprints, cf_num_items all of them. */
  predicate CountsMatch(cfg: Config, s: State)
  {
    && Shaped(cfg, s)
    && (forall b :: 0 <= b < cfg.size ==> s.counts[b] == |Live(s.buckets[b])|)
    && s.items == |Stored(s.buckets)|
  }

  /** Every stored fingerprint lies in [0, fp_bsize). */
  predicate InRange(cfg: Config, s: State)
  {
    forall v :: v in Stored(s.buckets) ==> 0 <= v < FpBSize(cfg)
  }

  /** b is one of the two buckets where the key's fingerprint may legally sit. */
  predicate InPair(cfg: Config, key: uint64, b: nat)
    requires ValidConfig(cfg)
  {
    var p := Primary(cfg, key);
    b == p || b == Partner(cfg, p, Fingerprint(cfg, key))
  }

  /** The key's fingerprint is physically stored in one of its two buckets. */
  predicate Found(cfg: Config, s: State, key: uint64)
    requires ValidConfig(cfg) && Shaped(cfg, s)
  {
    var p := Primary(cfg, key);
    var fp := Fingerprint(cfg, key);
    fp in s.buckets[p] || fp in s.buckets[Partner(cfg, p, fp)]
  }

  /** The result of inserting a sequence of keys one after the other. */
  datatype Batch = Batch(s: State, allPlaced: bool, cursor: nat)

  function InsertAll(cfg: Config, s: State, keys: seq<uint64>, rnd: nat -> nat, c: nat): (r: Batch)
    requires ValidConfig(cfg) && Shaped(cfg, s)
    ensures Shaped(cfg, r.s)
    decreases |keys|
  {
    if keys == [] then Batch(s, true, c)
    else
      var o := Insert(cfg, s, keys[0], rnd, c);
      var rest := InsertAll(cfg, o.s, keys[1..], rnd, o.cursor);
      rest.(allPlaced := rest.allPlaced && o.ret != -1)
  }
}
