// What scrub and random_remove promise about the table: in adaptive mode
// they keep fp_count and cf_num_items exact and lose exactly the
// fingerprints they say they lose; a scrub whose reinsertions all succeed
// keeps every stored key stored.

module ScrubProofs {
  import opened Hashing
  import opened CuckooModel
  import opened TableFacts
  import opened WalkProofs

  // ---------------------------------------------------------- removal

  /** Compacting a bucket after cell c removes exactly that cell's value from the bucket. */
  lemma LiveCompact(row: seq<int>, c: nat)
    requires c < |row|
    ensures Live(Compact(row, c)) + CellSet(row[c]) == Live(row)
  {
    assert row == row[..c] + [row[c]] + row[c + 1..];
    assert Compact(row, c) == row[..c] + row[c + 1..] + [Empty];
  }

  /**
   * random_remove takes exactly the chosen fingerprint out of the table, and in
   * adaptive mode keeps fp_count and cf_num_items exact.
   */
  lemma RemoveConserves(cfg: Config, s: State, b: nat, c: nat)
    requires Shaped(cfg, s) && b < cfg.size && c < cfg.cells && s.buckets[b][c] != Empty
    ensures Stored(RemoveAt(cfg, s, b, c).buckets) + multiset{s.buckets[b][c]} == Stored(s.buckets)
    ensures CountsMatch(cfg, s) ==> CountsMatch(cfg, RemoveAt(cfg, s, b, c))
  {
    var row := s.buckets[b];
    var row' := Compact(row, c);
    var s' := RemoveAt(cfg, s, b, c);
    assert s'.buckets == s.buckets[b := row'];
    LiveCompact(row, c);
    assert CellSet(row[c]) == multiset{row[c]};
    StoredUpdate(s.buckets, b, row');
    Cancel(Stored(s'.buckets), Stored(s.buckets), multiset{row[c]}, multiset{},
           Live(row), Live(row'));
    if CountsMatch(cfg, s) {
      assert |Live(row')| + 1 == |Live(row)|;
      LiveHas(row, c);
      assert s'.counts == s.counts[b := Dec8(s.counts[b])];
      SizeBalance(Stored(s'.buckets), Stored(s.buckets), multiset{row[c]}, multiset{});
      forall b' | 0 <= b' < cfg.size
        ensures s'.counts[b'] == |Live(s'.buckets[b'])|
      {
        if b' != b {
          assert s'.buckets[b'] == s.buckets[b'];
        }
      }
    }
  }

  // ---------------------------------------------------------- scrubbing

  /**
   * One bucket of a scrub in adaptive mode: taking out a fingerprint of a full
   * bucket and walking it back in keeps the counters exact and loses at most
   * that fingerprint, as the victim.
   */
  lemma ScrubStep(cfg: Config, s: State, p: nat, q: nat, rnd: nat -> nat, c: nat)
    requires ValidConfig(cfg) && CountsMatch(cfg, s) && p < cfg.size && q < cfg.cells
    requires s.counts[p] == cfg.cells
    ensures var r := Reinsert(cfg, s, p, q, rnd, c);
            && CountsMatch(cfg, r.s)
            && Stored(r.s.buckets) + Lost(r) == Stored(s.buckets)
  {
    var fp := s.buckets[p][q];
    FullBucket(cfg, s, p, q);
    var s1 := Clear(cfg, s, p, q);
    ClearKeepsCounts(cfg, s, p, q);
    WalkConserves(cfg, s1, p, fp, cfg.scrubIter, 1, 0, rnd, c);
    WalkKeepsCounts(cfg, s1, p, fp, cfg.scrubIter, 1, 0, rnd, c);
  }

  /**
   * What a scrub conserves in adaptive mode: the counters stay exact, and the
   * table plus the fingerprints lost hold what the table held, with
   * cf_num_items dropped by their number.
   */
  predicate ScrubConserved(cfg: Config, s: State, o: ScrubOutcome)
  {
    && CountsMatch(cfg, o.s)
    && Stored(o.s.buckets) + o.lost == Stored(s.buckets)
    && o.s.items + |o.lost| == s.items
  }

  /** In adaptive mode a scrub loses nothing but the fingerprints whose reinsertion failed. */
  lemma {:induction false} ScrubConserves(cfg: Config, s: State, p: nat, picks: nat -> nat, rnd: nat -> nat, c: nat)
    requires ValidConfig(cfg) && CountsMatch(cfg, s) && p <= cfg.size
    ensures ScrubConserved(cfg, s, ScrubFrom(cfg, s, p, picks, rnd, c))
    decreases cfg.size - p, 1
  {
    if p == cfg.size {
    } else if s.counts[p] == cfg.cells {
      ScrubFullConserves(cfg, s, p, picks, rnd, c);
    } else {
      ScrubConserves(cfg, s, p + 1, picks, rnd, c);
    }
  }

  /** A full bucket p: its reinsertion and the rest of the scrub together conserve the table. */
  lemma {:induction false} ScrubFullConserves(cfg: Config, s: State, p: nat, picks: nat -> nat, rnd: nat -> nat, c: nat)
    requires ValidConfig(cfg) && CountsMatch(cfg, s) && p < cfg.size && s.counts[p] == cfg.cells
    ensures ScrubConserved(cfg, s, ScrubFrom(cfg, s, p, picks, rnd, c))
    decreases cfg.size - p, 0
  {
    var q := picks(p) % cfg.cells;
    ScrubStep(cfg, s, p, q, rnd, c);
    var r := Reinsert(cfg, s, p, q, rnd, c);
    ScrubConserves(cfg, r.s, p + 1, picks, rnd, r.cursor);
    var rest := ScrubFrom(cfg, r.s, p + 1, picks, rnd, r.cursor);
    ConservedChain(cfg, s, r.s, Lost(r), rest);
  }

  /** A step that conserves the table followed by a scrub that conserves it conserves it. */
  lemma ConservedChain(cfg: Config, s: State, mid: State, lost: multiset<int>, rest: ScrubOutcome)
    requires CountsMatch(cfg, s) && CountsMatch(cfg, mid) && Stored(mid.buckets) + lost == Stored(s.buckets)
    requires ScrubConserved(cfg, mid, rest)
    ensures ScrubConserved(cfg, s, rest.(lost := rest.lost + lost))
  {
    var o := rest.(lost := rest.lost + lost);
    AddSame(Stored(rest.s.buckets), Stored(mid.buckets), rest.lost, multiset{}, lost);
    SizeBalance(Stored(o.s.buckets), Stored(s.buckets), o.lost, multiset{});
  }

  /**
   * In adaptive mode a scrub keeps every stored fingerprint in [0, fp_bsize),
   * and so are the ones it loses: it only moves fingerprints that were there.
   */
  lemma ScrubKeepsRange(cfg: Config, s: State, picks: nat -> nat, rnd: nat -> nat, c: nat)
    requires ValidConfig(cfg) && CountsMatch(cfg, s) && InRange(cfg, s)
    ensures var o := ScrubFrom(cfg, s, 0, picks, rnd, c);
            InRange(cfg, o.s) && forall v :: v in o.lost ==> 0 <= v < FpBSize(cfg)
  {
    ScrubConserves(cfg, s, 0, picks, rnd, c);
    var o := ScrubFrom(cfg, s, 0, picks, rnd, c);
    assert Stored(o.s.buckets) + o.lost == Stored(s.buckets);
    forall v | v in Stored(o.s.buckets)
      ensures 0 <= v < FpBSize(cfg)
    {
      assert v in Stored(o.s.buckets) + o.lost;
    }
    forall v | v in o.lost
      ensures 0 <= v < FpBSize(cfg)
    {
      assert v in Stored(o.s.buckets) + o.lost;
    }
  }

  /** random_remove keeps every stored fingerprint in [0, fp_bsize). */
  lemma RemoveKeepsRange(cfg: Config, s: State, b: nat, c: nat)
    requires Shaped(cfg, s) && b < cfg.size && c < cfg.cells && s.buckets[b][c] != Empty
    requires InRange(cfg, s)
    ensures InRange(cfg, RemoveAt(cfg, s, b, c))
  {
    RemoveConserves(cfg, s, b, c);
    var s' := RemoveAt(cfg, s, b, c);
    forall v | v in Stored(s'.buckets)
      ensures 0 <= v < FpBSize(cfg)
    {
      assert v in Stored(s'.buckets) + multiset{s.buckets[b][c]};
    }
  }

  /** A scrub finds nothing to do when no bucket's fp_count equals cf_cells: state and random stream are untouched. */
  lemma {:induction false} ScrubIdle(cfg: Config, s: State, p: nat, picks: nat -> nat, rnd: nat -> nat, c: nat)
    requires ValidConfig(cfg) && Shaped(cfg, s) && p <= cfg.size
    requires forall b :: p <= b < cfg.size ==> s.counts[b] != cfg.cells
    ensures ScrubFrom(cfg, s, p, picks, rnd, c) == ScrubOutcome(s, c, multiset{})
    decreases cfg.size - p
  {
    if p < cfg.size {
      ScrubIdle(cfg, s, p + 1, picks, rnd, c);
    }
  }

  /** A scrub whose reinsertions all succeed leaves the key stored in one of its buckets. */
  lemma {:induction false} ScrubKeepsKey(cfg: Config, s: State, p: nat, picks: nat -> nat, rnd: nat -> nat, c: nat,
                                         key: uint64)
    requires ValidConfig(cfg) && Shaped(cfg, s) && p <= cfg.size && Found(cfg, s, key)
    ensures var o := ScrubFrom(cfg, s, p, picks, rnd, c);
            o.lost == multiset{} ==> Found(cfg, o.s, key)
    decreases cfg.size - p
  {
    if p < cfg.size && s.counts[p] == cfg.cells {
      var q := picks(p) % cfg.cells;
      var fp := s.buckets[p][q];
      var s1 := Clear(cfg, s, p, q);
      FoundAfterWrite(cfg, s, s1, p, q, Empty, key);
      WalkKeepsKey(cfg, s1, p, fp, cfg.scrubIter, 1, 0, rnd, c, key);
      var r := Reinsert(cfg, s, p, q, rnd, c);
      if r.ret != -1 {
        ScrubKeepsKey(cfg, r.s, p + 1, picks, rnd, r.cursor, key);
      } else {
        var rest := ScrubFrom(cfg, r.s, p + 1, picks, rnd, r.cursor);
        assert r.s.victimFingerprint in rest.lost + Lost(r);
      }
    } else if p < cfg.size {
      ScrubKeepsKey(cfg, s, p + 1, picks, rnd, c, key);
    }
  }

  /** The same for every key of a set stored before the scrub. */
  lemma ScrubKeepsKeys(cfg: Config, s: State, picks: nat -> nat, rnd: nat -> nat, c: nat, keys: set<uint64>)
    requires ValidConfig(cfg) && Shaped(cfg, s)
    requires forall k :: k in keys ==> Found(cfg, s, k)
    ensures var o := ScrubFrom(cfg, s, 0, picks, rnd, c);
            o.lost == multiset{} ==> forall k :: k in keys ==> Found(cfg, o.s, k)
  {
    forall k | k in keys
      ensures ScrubFrom(cfg, s, 0, picks, rnd, c).lost == multiset{} ==> Found(cfg, ScrubFrom(cfg, s, 0, picks, rnd, c).s, k)
    {
      ScrubKeepsKey(cfg, s, 0, picks, rnd, c, k);
    }
  }
}
