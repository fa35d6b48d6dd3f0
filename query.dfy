// What query promises, and what the constructor's state answers: a key
// whose fingerprint sits in one of its buckets is always reported, and a
// yes is always backed by the victim pair or a live matching cell.

module QueryProofs {
  import opened Bits
  import opened Hashing
  import opened CuckooModel
  import opened TableFacts
  import opened WalkProofs

  /**
   * A stored fingerprint, reduced to either width a probe may use, is the key's
   * hash reduced to that width: the large width is a multiple of the small one.
   */
  lemma FingerprintMatchesBothWidths(cfg: Config, key: uint64)
    requires ValidConfig(cfg)
    ensures CRem(Fingerprint(cfg, key), FpSize(cfg)) == Hash(key, 1, FpSize(cfg)) % FpSize(cfg)
    ensures CRem(Fingerprint(cfg, key), FpBSize(cfg)) == Hash(key, 1, FpBSize(cfg)) % FpBSize(cfg)
  {
    WidthFacts(cfg);
    var js: nat := JSHash(key);
    var w, bw := FpSize(cfg), FpBSize(cfg);
    ModOfMod(js, w, Pow2((cfg.f * 4) / 3 - cfg.f));
    SmallMod(Hash(key, 1, w), w);
    SmallMod(Hash(key, 1, bw), bw);
  }

  /** The two buckets query probes are the key's two buckets, and the fingerprint it computes is the stored one. */
  lemma ProbeBuckets(cfg: Config, key: uint64, j: int)
    requires ValidConfig(cfg) && 0 <= j <= 1
    ensures var fp := Hash(key, 1, FpBSize(cfg)) % FpBSize(cfg);
            var b := Xor(Hash(key, 2, cfg.size), j * Hash(ToUint64(fp), 2, cfg.size)) % cfg.size;
            fp == Fingerprint(cfg, key) &&
            b == if j == 0 then Primary(cfg, key) else Partner(cfg, Primary(cfg, key), Fingerprint(cfg, key))
  {
    var p := Primary(cfg, key);
    var fp := Fingerprint(cfg, key);
    SmallMod(fp, FpBSize(cfg));
    var h := Hash(ToUint64(fp), 2, cfg.size);
    if j == 0 {
      assert j * h == 0 && Xor(p, 0) == p;
      SmallMod(p, cfg.size);
    } else {
      assert j * h == h;
      SmallMod(Partner(cfg, p, fp), cfg.size);
    }
  }

  /** No false negative: a key whose fingerprint sits in one of its two buckets is reported, whatever the widths. */
  lemma LookupFindsStored(cfg: Config, s: State, key: uint64)
    requires ValidConfig(cfg) && Shaped(cfg, s) && Found(cfg, s, key)
    ensures Lookup(cfg, s, key)
  {
    var p := Primary(cfg, key);
    var fp := Fingerprint(cfg, key);
    var a := Partner(cfg, p, fp);
    ProbeBuckets(cfg, key, 0);
    ProbeBuckets(cfg, key, 1);
    FingerprintMatchesBothWidths(cfg, key);
    if fp in s.buckets[p] {
      var i :| 0 <= i < cfg.cells && s.buckets[p][i] == fp;
      var w := Width(cfg, s, p);
      assert CRem(s.buckets[p][i], w) == Hash(key, 1, w) % w;
      assert Probe(cfg, s, key, 0);
    } else {
      var i :| 0 <= i < cfg.cells && s.buckets[a][i] == fp;
      var w := Width(cfg, s, a);
      assert CRem(s.buckets[a][i], w) == Hash(key, 1, w) % w;
      assert Probe(cfg, s, key, 1);
    }
  }

  /**
   * query says yes only for the victim pair or for a stored fingerprint in one
   * of the key's two buckets that agrees with the key's hash under that
   * bucket's width: the -1 of an empty cell never matches.
   */
  lemma LookupNeedsMatch(cfg: Config, s: State, key: uint64)
    requires ValidConfig(cfg) && Shaped(cfg, s) && InRange(cfg, s) && Lookup(cfg, s, key)
    ensures var p := Primary(cfg, key);
            var w := Width(cfg, s, p);
            (Hash(key, 1, w) % w == s.victimFingerprint && p == s.victimPointer) ||
            exists b, i :: 0 <= b < cfg.size && InPair(cfg, key, b) && 0 <= i < cfg.cells &&
                           s.buckets[b][i] != Empty &&
                           s.buckets[b][i] % Width(cfg, s, b) == Hash(key, 1, Width(cfg, s, b)) % Width(cfg, s, b)
  {
    WidthFacts(cfg);
    var p := Primary(cfg, key);
    var w := Width(cfg, s, p);
    if !(Hash(key, 1, w) % w == s.victimFingerprint && p == s.victimPointer) {
      var j := if Probe(cfg, s, key, 0) then 0 else 1;
      ProbeBuckets(cfg, key, j);
      var b := if j == 0 then p else Partner(cfg, p, Fingerprint(cfg, key));
      var wb := Width(cfg, s, b);
      var i :| 0 <= i < cfg.cells && CRem(s.buckets[b][i], wb) == Hash(key, 1, wb) % wb;
      var v := s.buckets[b][i];
      assert v != Empty;
      LiveHas(s.buckets[b], i);
      LiveInStored(s.buckets, b);
      assert v in Stored(s.buckets);
    }
  }

  /**
   * The constructor's state holds no fingerprint and answers no to every query;
   * its counters describe the table exactly in adaptive mode (mode 1) and in
   * no other mode, where every bucket starts counted as full.
   */
  lemma InitFacts(cfg: Config)
    requires ValidConfig(cfg)
    ensures Stored(Init(cfg).buckets) == multiset{}
    ensures CountsMatch(cfg, Init(cfg)) <==> cfg.mode == 1
    ensures forall key: uint64 :: !Lookup(cfg, Init(cfg), key)
    ensures cfg.mode != 1 ==> forall b :: 0 <= b < cfg.size ==> Width(cfg, Init(cfg), b) == FpSize(cfg)
  {
    var s := Init(cfg);
    PrefixAllEmpty(s.buckets, |s.buckets|);
    WidthFacts(cfg);
    assert cfg.size >= 1;
    if cfg.mode == 1 {
      forall b | 0 <= b < cfg.size
        ensures s.counts[b] == |Live(s.buckets[b])|
      {
        LiveInStored(s.buckets, b);
      }
    } else {
      LiveInStored(s.buckets, 0);
      assert s.counts[0] != |Live(s.buckets[0])|;
    }
    forall key: uint64
      ensures !Lookup(cfg, s, key)
    {
      forall j | 0 <= j <= 1
        ensures !Probe(cfg, s, key, j)
      {
      }
    }
  }

  /**
   * The victim check of query (line 333) reduces the key to the width of its
   * first bucket. When that bucket counts as full, the width is fp_size, and a
   * key that is itself the victim, recorded in its first bucket, passes the
   * check exactly when its large fingerprint is already below fp_size.
   */
  lemma VictimCheckAtSmallWidth(cfg: Config, s: State, key: uint64)
    requires ValidConfig(cfg) && Shaped(cfg, s)
    requires Width(cfg, s, Primary(cfg, key)) == FpSize(cfg)
    requires s.victimFingerprint == Fingerprint(cfg, key) && s.victimPointer == Primary(cfg, key)
    ensures Hash(key, 1, FpSize(cfg)) % FpSize(cfg) == s.victimFingerprint <==> Fingerprint(cfg, key) < FpSize(cfg)
  {
    FingerprintMatchesBothWidths(cfg, key);
    var w := FpSize(cfg);
    if Fingerprint(cfg, key) < w {
      SmallMod(Fingerprint(cfg, key), w);
    }
  }

  /**
   * Keys inserted into a fresh filter, all successfully, are all reported by
   * query afterwards: placement alone causes no false negative.
   */
  lemma NoFalseNegatives(cfg: Config, keys: seq<uint64>, rnd: nat -> nat, c: nat)
    requires ValidConfig(cfg)
    ensures var r := InsertAll(cfg, Init(cfg), keys, rnd, c);
            r.allPlaced ==> forall i :: 0 <= i < |keys| ==> Lookup(cfg, r.s, keys[i])
  {
    var r := InsertAll(cfg, Init(cfg), keys, rnd, c);
    InsertAllKeepsKeys(cfg, Init(cfg), keys, rnd, c, {});
    if r.allPlaced {
      forall i | 0 <= i < |keys|
        ensures Lookup(cfg, r.s, keys[i])
      {
        LookupFindsStored(cfg, r.s, keys[i]);
      }
    }
  }
}
