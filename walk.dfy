// What insert_scrub (the walk of model.dfy) promises: it loses no
// fingerprint, keeps the adaptive counters exact, respects the scrub tiers
// and moves every fingerprint only within the two buckets of its key.
//
// Each property is proved by three mutually recursive lemmas that follow
// the walk's three functions: the round dispatcher (Walk...), one cell index
// of a round (Scan...) and the eviction that ends a round (Evict...).

module WalkProofs {
  import opened Bits
  import opened Hashing
  import opened CuckooModel
  import opened TableFacts

  // ------------------------------------------------------- conservation

  /**
   * What a walk of fp from state s conserves. On success the table holds exactly
   * one fingerprint more, fp, and only the destination bucket's counter and
   * cf_num_items moved. On failure the table plus the victim hold what the table
   * plus fp held, the victim pair names the bucket the walk stopped in, and no
   * counter moved.
   */
  predicate Conserves(cfg: Config, s: State, fp: int, o: Outcome)
    requires Shaped(cfg, s) && o.bucket < cfg.size
  {
    if o.ret != -1 then
      && Stored(o.s.buckets) == Stored(s.buckets) + multiset{fp}
      && o.s.counts == s.counts[o.bucket := Inc8(s.counts[o.bucket])]
      && o.s.items == s.items + 1
      && o.s.victimPointer == s.victimPointer
      && o.s.victimFingerprint == s.victimFingerprint
    else
      && Stored(o.s.buckets) + multiset{o.s.victimFingerprint} == Stored(s.buckets) + multiset{fp}
      && o.s.victimFingerprint != Empty
      && o.s.victimPointer == o.bucket
      && o.s.counts == s.counts
      && o.s.items == s.items
  }

  /** insert_scrub loses no fingerprint and moves no counter but the one of the bucket it fills. */
  lemma {:induction false} WalkConserves(cfg: Config, s: State, p: nat, fp: int, si: int, t: int, jj: nat,
                                         rnd: nat -> nat, c: nat)
    requires ValidConfig(cfg) && Shaped(cfg, s) && p < cfg.size && 1 <= t && jj <= cfg.cells
    requires fp != Empty
    ensures Conserves(cfg, s, fp, Walk(cfg, s, p, fp, si, t, jj, rnd, c))
    decreases MaxRounds + 1 - t, cfg.cells - jj, 2
  {
    if t > MaxRounds {
      assert Walk(cfg, s, p, fp, si, t, jj, rnd, c).s.buckets == s.buckets;
    } else if jj < cfg.cells {
      ScanConserves(cfg, s, p, fp, si, t, jj, rnd, c);
    } else {
      EvictConserves(cfg, s, p, fp, si, t, rnd, c);
    }
  }

  lemma {:induction false} ScanConserves(cfg: Config, s: State, p: nat, fp: int, si: int, t: int, jj: nat,
                                         rnd: nat -> nat, c: nat)
    requires ValidConfig(cfg) && Shaped(cfg, s) && p < cfg.size && 1 <= t <= MaxRounds && jj < cfg.cells
    requires fp != Empty
    ensures Conserves(cfg, s, fp, Scan(cfg, s, p, fp, si, t, jj, rnd, c))
    decreases MaxRounds + 1 - t, cfg.cells - jj, 0
  {
    var (q, q1) := Candidates(cfg, p, fp, rnd(c) % 2);
    if Admits(cfg, s.counts[q], si, t) && s.buckets[q][jj] == Empty {
      FillConserves(cfg, s, q, jj, fp, t, false, c + 1);
    } else if Admits(cfg, s.counts[q1], si, t) && s.buckets[q1][jj] == Empty {
      FillConserves(cfg, s, q1, jj, fp, t, false, c + 1);
    } else {
      WalkConserves(cfg, s, q, fp, si, t, jj + 1, rnd, c + 1);
    }
  }

  lemma {:induction false} EvictConserves(cfg: Config, s: State, p: nat, fp: int, si: int, t: int,
                                          rnd: nat -> nat, c: nat)
    requires ValidConfig(cfg) && Shaped(cfg, s) && p < cfg.size && 1 <= t <= MaxRounds
    requires fp != Empty
    ensures Conserves(cfg, s, fp, Evict(cfg, s, p, fp, si, t, rnd, c))
    decreases MaxRounds + 1 - t, 0, 1
  {
    var pe := EvictionBucket(cfg, p, fp, rnd(c) % 2);
    var slot := rnd(c + 1) % cfg.cells;
    var pushed := s.buckets[pe][slot];
    if pushed == Empty {
      FillConserves(cfg, s, pe, slot, fp, t, true, c + 2);
    } else {
      PushConserves(cfg, s, pe, slot, fp, si, t, rnd, c + 2);
    }
  }

  /** Writing fp into an empty cell of bucket b is a successful placement. */
  lemma FillConserves(cfg: Config, s: State, b: nat, j: nat, fp: int, ret: int, evicted: bool, cursor: nat)
    requires Shaped(cfg, s) && b < cfg.size && j < cfg.cells
    requires s.buckets[b][j] == Empty && fp != Empty && ret != -1
    ensures Conserves(cfg, s, fp, Outcome(Fill(cfg, s, b, j, fp), ret, b, evicted, cursor))
  {
    FillStored(cfg, s, b, j, fp);
  }

  /** fp displaces the fingerprint in cell j of bucket b, which walks on from round t + 1. */
  lemma {:induction false} PushConserves(cfg: Config, s: State, b: nat, j: nat, fp: int, si: int, t: int,
                                         rnd: nat -> nat, c: nat)
    requires ValidConfig(cfg) && Shaped(cfg, s) && b < cfg.size && j < cfg.cells && 1 <= t <= MaxRounds
    requires fp != Empty && s.buckets[b][j] != Empty
    ensures Conserves(cfg, s, fp, Walk(cfg, Put(s, b, j, fp), b, s.buckets[b][j], si, t + 1, 0, rnd, c))
    decreases MaxRounds + 1 - t, 0, 0
  {
    WalkConserves(cfg, Put(s, b, j, fp), b, s.buckets[b][j], si, t + 1, 0, rnd, c);
    SwapConserves(cfg, s, b, j, fp, Walk(cfg, Put(s, b, j, fp), b, s.buckets[b][j], si, t + 1, 0, rnd, c));
  }

  /** What a walk conserves after fp displaced a fingerprint, it conserves from the state before. */
  lemma SwapConserves(cfg: Config, s: State, b: nat, j: nat, fp: int, o: Outcome)
    requires Shaped(cfg, s) && b < cfg.size && j < cfg.cells && o.bucket < cfg.size
    requires s.buckets[b][j] != Empty && fp != Empty
    requires Conserves(cfg, Put(s, b, j, fp), s.buckets[b][j], o)
    ensures Conserves(cfg, s, fp, o)
  {
    SwapStored(cfg, s, b, j, fp);
  }

  /** A walk started with a fingerprint in [0, fp_bsize) leaves only such values in the table and in the victim. */
  lemma WalkKeepsRange(cfg: Config, s: State, p: nat, fp: int, si: int, t: int, jj: nat,
                       rnd: nat -> nat, c: nat)
    requires ValidConfig(cfg) && Shaped(cfg, s) && p < cfg.size && 1 <= t && jj <= cfg.cells
    requires InRange(cfg, s) && 0 <= fp < FpBSize(cfg)
    ensures var o := Walk(cfg, s, p, fp, si, t, jj, rnd, c);
            InRange(cfg, o.s) && (o.ret == -1 ==> 0 <= o.s.victimFingerprint < FpBSize(cfg))
  {
    WalkConserves(cfg, s, p, fp, si, t, jj, rnd, c);
    var o := Walk(cfg, s, p, fp, si, t, jj, rnd, c);
    forall v | v in Stored(o.s.buckets)
      ensures 0 <= v < FpBSize(cfg)
    {
      if o.ret == -1 {
        assert v in Stored(o.s.buckets) + multiset{o.s.victimFingerprint};
      }
      assert v in Stored(s.buckets) + multiset{fp};
    }
    if o.ret == -1 {
      assert o.s.victimFingerprint in Stored(o.s.buckets) + multiset{o.s.victimFingerprint};
      assert o.s.victimFingerprint in Stored(s.buckets) + multiset{fp};
    }
  }

  // ------------------------------------------------------ adaptive counters

  /** In adaptive mode insert_scrub keeps fp_count and cf_num_items equal to what the table holds. */
  lemma {:induction false} WalkKeepsCounts(cfg: Config, s: State, p: nat, fp: int, si: int, t: int, jj: nat,
                                           rnd: nat -> nat, c: nat)
    requires ValidConfig(cfg) && CountsMatch(cfg, s) && p < cfg.size && 1 <= t && jj <= cfg.cells
    requires fp != Empty
    ensures CountsMatch(cfg, Walk(cfg, s, p, fp, si, t, jj, rnd, c).s)
    decreases MaxRounds + 1 - t, cfg.cells - jj, 2
  {
    if t > MaxRounds {
      var o := Walk(cfg, s, p, fp, si, t, jj, rnd, c);
      assert o.s.buckets == s.buckets && o.s.counts == s.counts && o.s.items == s.items;
    } else if jj < cfg.cells {
      ScanKeepsCounts(cfg, s, p, fp, si, t, jj, rnd, c);
    } else {
      EvictKeepsCounts(cfg, s, p, fp, si, t, rnd, c);
    }
  }

  lemma {:induction false} ScanKeepsCounts(cfg: Config, s: State, p: nat, fp: int, si: int, t: int, jj: nat,
                                           rnd: nat -> nat, c: nat)
    requires ValidConfig(cfg) && CountsMatch(cfg, s) && p < cfg.size && 1 <= t <= MaxRounds && jj < cfg.cells
    requires fp != Empty
    ensures CountsMatch(cfg, Scan(cfg, s, p, fp, si, t, jj, rnd, c).s)
    decreases MaxRounds + 1 - t, cfg.cells - jj, 0
  {
    var (q, q1) := Candidates(cfg, p, fp, rnd(c) % 2);
    if Admits(cfg, s.counts[q], si, t) && s.buckets[q][jj] == Empty {
      FillKeepsCounts(cfg, s, q, jj, fp);
    } else if Admits(cfg, s.counts[q1], si, t) && s.buckets[q1][jj] == Empty {
      FillKeepsCounts(cfg, s, q1, jj, fp);
    } else {
      WalkKeepsCounts(cfg, s, q, fp, si, t, jj + 1, rnd, c + 1);
    }
  }

  lemma {:induction false} EvictKeepsCounts(cfg: Config, s: State, p: nat, fp: int, si: int, t: int,
                                            rnd: nat -> nat, c: nat)
    requires ValidConfig(cfg) && CountsMatch(cfg, s) && p < cfg.size && 1 <= t <= MaxRounds
    requires fp != Empty
    ensures CountsMatch(cfg, Evict(cfg, s, p, fp, si, t, rnd, c).s)
    decreases MaxRounds + 1 - t, 0, 1
  {
    var pe := EvictionBucket(cfg, p, fp, rnd(c) % 2);
    var slot := rnd(c + 1) % cfg.cells;
    if s.buckets[pe][slot] == Empty {
      FillKeepsCounts(cfg, s, pe, slot, fp);
    } else {
      PushKeepsCounts(cfg, s, pe, slot, fp, si, t, rnd, c + 2);
    }
  }

  /** fp displaces the fingerprint in cell j of bucket b, which walks on from round t + 1. */
  lemma {:induction false} PushKeepsCounts(cfg: Config, s: State, b: nat, j: nat, fp: int, si: int, t: int,
                                           rnd: nat -> nat, c: nat)
    requires ValidConfig(cfg) && CountsMatch(cfg, s) && b < cfg.size && j < cfg.cells && 1 <= t <= MaxRounds
    requires fp != Empty && s.buckets[b][j] != Empty
    ensures CountsMatch(cfg, Walk(cfg, Put(s, b, j, fp), b, s.buckets[b][j], si, t + 1, 0, rnd, c).s)
    decreases MaxRounds + 1 - t, 0, 0
  {
    PutKeepsCounts(cfg, s, b, j, fp);
    WalkKeepsCounts(cfg, Put(s, b, j, fp), b, s.buckets[b][j], si, t + 1, 0, rnd, c);
  }

  // ------------------------------------------------------------- tiers

  /**
   * A fingerprint placed by the cell scan went into a bucket its tier admitted in
   * the round that placed it, judged by the counter the walk started from (the
   * walk moves no counter before its one placement).
   */
  predicate TierRespected(cfg: Config, s: State, si: int, o: Outcome)
    requires Shaped(cfg, s) && o.bucket < cfg.size
  {
    o.ret != -1 && !o.evicted ==> Admits(cfg, s.counts[o.bucket], si, o.ret)
  }

  /**
   * With a scrub threshold si, insert_scrub fills a bucket by its cell scan only
   * while that bucket's fp_count is below cf_cells - 1 in rounds before si and
   * below cf_cells from round si on.
   */
  lemma {:induction false} WalkRespectsTiers(cfg: Config, s: State, p: nat, fp: int, si: int, t: int, jj: nat,
                                             rnd: nat -> nat, c: nat)
    requires ValidConfig(cfg) && Shaped(cfg, s) && p < cfg.size && 1 <= t && jj <= cfg.cells
    ensures TierRespected(cfg, s, si, Walk(cfg, s, p, fp, si, t, jj, rnd, c))
    decreases MaxRounds + 1 - t, cfg.cells - jj, 2
  {
    if t > MaxRounds {
    } else if jj < cfg.cells {
      ScanRespectsTiers(cfg, s, p, fp, si, t, jj, rnd, c);
    } else {
      EvictRespectsTiers(cfg, s, p, fp, si, t, rnd, c);
    }
  }

  lemma {:induction false} ScanRespectsTiers(cfg: Config, s: State, p: nat, fp: int, si: int, t: int, jj: nat,
                                             rnd: nat -> nat, c: nat)
    requires ValidConfig(cfg) && Shaped(cfg, s) && p < cfg.size && 1 <= t <= MaxRounds && jj < cfg.cells
    ensures TierRespected(cfg, s, si, Scan(cfg, s, p, fp, si, t, jj, rnd, c))
    decreases MaxRounds + 1 - t, cfg.cells - jj, 0
  {
    var (q, q1) := Candidates(cfg, p, fp, rnd(c) % 2);
    if !(Admits(cfg, s.counts[q], si, t) && s.buckets[q][jj] == Empty)
       && !(Admits(cfg, s.counts[q1], si, t) && s.buckets[q1][jj] == Empty) {
      WalkRespectsTiers(cfg, s, q, fp, si, t, jj + 1, rnd, c + 1);
    }
  }

  lemma {:induction false} EvictRespectsTiers(cfg: Config, s: State, p: nat, fp: int, si: int, t: int,
                                              rnd: nat -> nat, c: nat)
    requires ValidConfig(cfg) && Shaped(cfg, s) && p < cfg.size && 1 <= t <= MaxRounds
    ensures TierRespected(cfg, s, si, Evict(cfg, s, p, fp, si, t, rnd, c))
    decreases MaxRounds + 1 - t, 0, 1
  {
    var pe := EvictionBucket(cfg, p, fp, rnd(c) % 2);
    var slot := rnd(c + 1) % cfg.cells;
    var pushed := s.buckets[pe][slot];
    if pushed != Empty {
      PushRespectsTiers(cfg, s, pe, slot, fp, si, t, rnd, c + 2);
    }
  }

  /** fp displaces the fingerprint in cell j of bucket b, which walks on from round t + 1. */
  lemma {:induction false} PushRespectsTiers(cfg: Config, s: State, b: nat, j: nat, fp: int, si: int, t: int,
                                             rnd: nat -> nat, c: nat)
    requires ValidConfig(cfg) && Shaped(cfg, s) && b < cfg.size && j < cfg.cells && 1 <= t <= MaxRounds
    ensures TierRespected(cfg, s, si, Walk(cfg, Put(s, b, j, fp), b, s.buckets[b][j], si, t + 1, 0, rnd, c))
    decreases MaxRounds + 1 - t, 0, 0
  {
    WalkRespectsTiers(cfg, Put(s, b, j, fp), b, s.buckets[b][j], si, t + 1, 0, rnd, c);
    assert Put(s, b, j, fp).counts == s.counts;
  }

  // ------------------------------------------------ keys stay reachable

  /** The key's fingerprint is in the table, or it is the carried fingerprint and the walk stands in one of its buckets. */
  predicate Covered(cfg: Config, s: State, p: nat, fp: int, key: uint64)
    requires ValidConfig(cfg) && Shaped(cfg, s)
  {
    Found(cfg, s, key) || (fp == Fingerprint(cfg, key) && InPair(cfg, key, p))
  }

  /** The key is stored in one of its buckets, or the walk failed and it is the victim, recorded in one of its buckets. */
  predicate KeyKept(cfg: Config, key: uint64, o: Outcome)
    requires ValidConfig(cfg) && Shaped(cfg, o.s) && o.bucket < cfg.size
  {
    Found(cfg, o.s, key) ||
    (o.ret == -1 && o.s.victimFingerprint == Fingerprint(cfg, key) && InPair(cfg, key, o.bucket))
  }

  /**
   * The walk moves fingerprints only within their bucket pairs: a key whose
   * fingerprint was stored in one of its buckets, or was being carried from one
   * of them, is stored in one of its buckets afterwards, or is the victim.
   */
  lemma {:induction false} WalkKeepsKey(cfg: Config, s: State, p: nat, fp: int, si: int, t: int, jj: nat,
                                        rnd: nat -> nat, c: nat, key: uint64)
    requires ValidConfig(cfg) && Shaped(cfg, s) && p < cfg.size && 1 <= t && jj <= cfg.cells
    requires Covered(cfg, s, p, fp, key)
    ensures KeyKept(cfg, key, Walk(cfg, s, p, fp, si, t, jj, rnd, c))
    decreases MaxRounds + 1 - t, cfg.cells - jj, 2
  {
    if t > MaxRounds {
      assert Walk(cfg, s, p, fp, si, t, jj, rnd, c).s.buckets == s.buckets;
    } else if jj < cfg.cells {
      ScanKeepsKey(cfg, s, p, fp, si, t, jj, rnd, c, key);
    } else {
      EvictKeepsKey(cfg, s, p, fp, si, t, rnd, c, key);
    }
  }

  lemma {:induction false} ScanKeepsKey(cfg: Config, s: State, p: nat, fp: int, si: int, t: int, jj: nat,
                                        rnd: nat -> nat, c: nat, key: uint64)
    requires ValidConfig(cfg) && Shaped(cfg, s) && p < cfg.size && 1 <= t <= MaxRounds && jj < cfg.cells
    requires Covered(cfg, s, p, fp, key)
    ensures KeyKept(cfg, key, Scan(cfg, s, p, fp, si, t, jj, rnd, c))
    decreases MaxRounds + 1 - t, cfg.cells - jj, 0
  {
    var (q, q1) := Candidates(cfg, p, fp, rnd(c) % 2);
    if fp == Fingerprint(cfg, key) && InPair(cfg, key, p) {
      PairClosed(cfg, key, p);
    }
    if Admits(cfg, s.counts[q], si, t) && s.buckets[q][jj] == Empty {
      FillKeepsKey(cfg, s, q, jj, fp, key);
    } else if Admits(cfg, s.counts[q1], si, t) && s.buckets[q1][jj] == Empty {
      FillKeepsKey(cfg, s, q1, jj, fp, key);
    } else {
      WalkKeepsKey(cfg, s, q, fp, si, t, jj + 1, rnd, c + 1, key);
    }
  }

  lemma {:induction false} EvictKeepsKey(cfg: Config, s: State, p: nat, fp: int, si: int, t: int,
                                         rnd: nat -> nat, c: nat, key: uint64)
    requires ValidConfig(cfg) && Shaped(cfg, s) && p < cfg.size && 1 <= t <= MaxRounds
    requires Covered(cfg, s, p, fp, key)
    ensures KeyKept(cfg, key, Evict(cfg, s, p, fp, si, t, rnd, c))
    decreases MaxRounds + 1 - t, 0, 1
  {
    var pe := EvictionBucket(cfg, p, fp, rnd(c) % 2);
    var slot := rnd(c + 1) % cfg.cells;
    if fp == Fingerprint(cfg, key) && InPair(cfg, key, p) {
      PairClosed(cfg, key, p);
    }
    if s.buckets[pe][slot] == Empty {
      FillKeepsKey(cfg, s, pe, slot, fp, key);
    } else {
      PushKeepsKey(cfg, s, pe, slot, fp, si, t, rnd, c + 2, key);
    }
  }

  /** Writing fp into an empty cell of bucket b keeps the key stored, and stores it if fp is its fingerprint and b one of its buckets. */
  lemma FillKeepsKey(cfg: Config, s: State, b: nat, j: nat, fp: int, key: uint64)
    requires ValidConfig(cfg) && Shaped(cfg, s) && b < cfg.size && j < cfg.cells && s.buckets[b][j] == Empty
    requires Found(cfg, s, key) || (fp == Fingerprint(cfg, key) && InPair(cfg, key, b))
    ensures Found(cfg, Fill(cfg, s, b, j, fp), key)
  {
    FoundAfterWrite(cfg, s, Fill(cfg, s, b, j, fp), b, j, fp, key);
  }

  /**
   * fp displaces the fingerprint in cell j of bucket b, one of the buckets of the
   * key if fp is the key's, and the displaced fingerprint walks on from round t + 1.
   */
  lemma {:induction false} PushKeepsKey(cfg: Config, s: State, b: nat, j: nat, fp: int, si: int, t: int,
                                        rnd: nat -> nat, c: nat, key: uint64)
    requires ValidConfig(cfg) && Shaped(cfg, s) && b < cfg.size && j < cfg.cells && 1 <= t <= MaxRounds
    requires Found(cfg, s, key) || (fp == Fingerprint(cfg, key) && InPair(cfg, key, b))
    ensures KeyKept(cfg, key, Walk(cfg, Put(s, b, j, fp), b, s.buckets[b][j], si, t + 1, 0, rnd, c))
    decreases MaxRounds + 1 - t, 0, 0
  {
    FoundAfterWrite(cfg, s, Put(s, b, j, fp), b, j, fp, key);
    WalkKeepsKey(cfg, Put(s, b, j, fp), b, s.buckets[b][j], si, t + 1, 0, rnd, c, key);
  }

  // ---------------------------------------------------------- insertion

  /** A successful insert(key) leaves the key, and every key stored before, stored in one of its buckets. */
  lemma InsertKeepsKeys(cfg: Config, s: State, key: uint64, rnd: nat -> nat, c: nat, keys: set<uint64>)
    requires ValidConfig(cfg) && Shaped(cfg, s)
    requires forall k :: k in keys ==> Found(cfg, s, k)
    ensures var o := Insert(cfg, s, key, rnd, c);
            o.ret != -1 ==> forall k :: k in keys + {key} ==> Found(cfg, o.s, k)
  {
    var p := Primary(cfg, key);
    var fp := Fingerprint(cfg, key);
    SmallMod(p, cfg.size);
    forall k | k in keys + {key}
      ensures KeyKept(cfg, k, Walk(cfg, s, p % cfg.size, fp, 0, 1, 0, rnd, c))
    {
      WalkKeepsKey(cfg, s, p % cfg.size, fp, 0, 1, 0, rnd, c, k);
    }
  }

  /** After a run of inserts that all succeeded, every key inserted, and every key stored before, is stored. */
  lemma {:induction false} InsertAllKeepsKeys(cfg: Config, s: State, keys: seq<uint64>, rnd: nat -> nat, c: nat,
                                              known: set<uint64>)
    requires ValidConfig(cfg) && Shaped(cfg, s)
    requires forall k :: k in known ==> Found(cfg, s, k)
    ensures var r := InsertAll(cfg, s, keys, rnd, c);
            r.allPlaced ==> forall k :: k in known || k in keys ==> Found(cfg, r.s, k)
    decreases |keys|
  {
    if keys != [] {
      var o := Insert(cfg, s, keys[0], rnd, c);
      InsertKeepsKeys(cfg, s, keys[0], rnd, c, known);
      if o.ret != -1 {
        var known' := known + {keys[0]};
        InsertAllKeepsKeys(cfg, o.s, keys[1..], rnd, o.cursor, known');
        var r := InsertAll(cfg, s, keys, rnd, c);
        if r.allPlaced {
          forall k | k in known || k in keys
            ensures k in known' || k in keys[1..]
          {
            if k !in known' {
              var i :| 0 <= i < |keys| && keys[i] == k;
              assert keys[1..][i - 1] == k;
            }
          }
        }
      }
    }
  }
}
