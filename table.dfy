// Facts about the table as a whole: how one cell write changes the
// fingerprints the table holds and the adaptive-mode counters, the widths
// a query compares under, and the bucket pairs fingerprints move within.

module TableFacts {
  import opened Bits
  import opened Hashing
  import opened CuckooModel

  /** The fingerprints a single cell holds: none if empty. */
  function CellSet(v: int): multiset<int>
  {
    if v == Empty then multiset{} else multiset{v}
  }

  // ---------------------------------------------------------------- widths

  /** The small width is at least 2 and divides the large one, which is fp_size shifted left. */
  lemma {:induction false} WidthFacts(cfg: Config)
    requires ValidConfig(cfg)
    ensures 2 <= FpSize(cfg) <= FpBSize(cfg)
    ensures FpBSize(cfg) == FpSize(cfg) * Pow2((cfg.f * 4) / 3 - cfg.f)
  {
    var f := cfg.f;
    var e := (f * 4) / 3;
    assert e >= f by {
      assert 3 * e + 3 > f * 4;
    }
    var d := e - f;
    var small, large, scale := FpSize(cfg), FpBSize(cfg), Pow2(d);
    assert small == Pow2(f) && large == Pow2(f + d);
    Pow2Add(f, d);
    assert large == small * scale;
    assert small == 2 * Pow2(f - 1);
    MulAtLeast(scale, small);
    assert scale * small == small * scale;
  }

  // ------------------------------------------------------- multiset algebra

  /** Two balances sharing a middle term compose. */
  lemma Cancel(a: multiset<int>, b: multiset<int>, x: multiset<int>, y: multiset<int>,
               l: multiset<int>, l2: multiset<int>)
    requires a + l == b + l2
    requires l2 + x == l + y
    ensures a + x == b + y
  {
    forall e
      ensures (a + x)[e] == (b + y)[e]
    {
      assert (a + l)[e] == (b + l2)[e];
      assert (l2 + x)[e] == (l + y)[e];
    }
  }

  /** A balance survives adding the same multiset to both sides. */
  lemma AddSame(a: multiset<int>, b: multiset<int>, l: multiset<int>, l2: multiset<int>, m: multiset<int>)
    requires a + l == b + l2
    ensures (a + m) + l == (b + m) + l2
  {
    forall e
      ensures ((a + m) + l)[e] == ((b + m) + l2)[e]
    {
      assert (a + l)[e] == (b + l2)[e];
    }
  }

  lemma SizeBalance(a: multiset<int>, b: multiset<int>, x: multiset<int>, y: multiset<int>)
    requires a + x == b + y
    ensures |a| + |x| == |b| + |y|
  {
    assert |a + x| == |b + y|;
  }

  // ------------------------------------------------------------ one bucket

  lemma LiveUpdate(row: seq<int>, j: nat, v: int)
    requires j < |row|
    ensures Live(row[j := v]) + CellSet(row[j]) == Live(row) + CellSet(v)
  {
  }

  /** A bucket holds at most cf_cells fingerprints, fewer when one of its cells is empty. */
  lemma LiveSize(row: seq<int>)
    ensures |Live(row)| <= |row|
    ensures Empty in row ==> |Live(row)| < |row|
    ensures |Live(row)| == |row| ==> Empty !in row
  {
    assert |Live(row)| + multiset(row)[Empty] == |row|;
  }

  lemma LiveHas(row: seq<int>, j: nat)
    requires j < |row| && row[j] != Empty
    ensures row[j] in Live(row)
  {
    assert row[j] in multiset(row);
  }

  /** Counting a bucket's cells one by one: each non-empty cell adds one fingerprint. */
  lemma LiveSnoc(row: seq<int>, j: nat)
    requires j < |row|
    ensures |Live(row[..j + 1])| == |Live(row[..j])| + (if row[j] == Empty then 0 else 1)
  {
    assert row[..j + 1] == row[..j] + [row[j]];
    assert multiset(row[..j + 1]) == multiset(row[..j]) + multiset{row[j]};
    if row[j] == Empty {
      assert Live(row[..j + 1]) == Live(row[..j]);
    } else {
      assert Live(row[..j + 1]) == Live(row[..j]) + multiset{row[j]};
    }
  }

  // ------------------------------------------------------------- the table

  /** Replacing bucket b changes the fingerprints of a prefix by that bucket's difference, if the prefix reaches b. */
  lemma {:induction false} PrefixUpdate(bs: seq<seq<int>>, b: nat, row: seq<int>, n: nat)
    requires b < |bs| && n <= |bs|
    ensures n <= b ==> StoredPrefix(bs[b := row], n) == StoredPrefix(bs, n)
    ensures b < n ==> StoredPrefix(bs[b := row], n) + Live(bs[b]) == StoredPrefix(bs, n) + Live(row)
    decreases n
  {
    if n > 0 {
      var bs' := bs[b := row];
      PrefixUpdate(bs, b, row, n - 1);
      var before, after := StoredPrefix(bs, n - 1), StoredPrefix(bs', n - 1);
      if b < n - 1 {
        assert bs'[n - 1] == bs[n - 1];
        AddSame(after, before, Live(bs[b]), Live(row), Live(bs[n - 1]));
      } else if b == n - 1 {
        assert after == before;
        Swap(before, Live(row), Live(bs[b]));
      }
    }
  }

  lemma Swap(a: multiset<int>, x: multiset<int>, y: multiset<int>)
    ensures a + x + y == a + y + x
  {
  }

  /** Replacing one bucket changes the table's fingerprints by that bucket's difference. */
  lemma StoredUpdate(bs: seq<seq<int>>, b: nat, row: seq<int>)
    requires b < |bs|
    ensures Stored(bs[b := row]) + Live(bs[b]) == Stored(bs) + Live(row)
  {
    PrefixUpdate(bs, b, row, |bs|);
  }

  lemma {:induction false} LiveInPrefix(bs: seq<seq<int>>, b: nat, n: nat)
    requires b < n <= |bs|
    ensures Live(bs[b]) <= StoredPrefix(bs, n)
    decreases n
  {
    if b < n - 1 {
      LiveInPrefix(bs, b, n - 1);
    }
  }

  /** Every fingerprint of a bucket is a fingerprint of the table. */
  lemma LiveInStored(bs: seq<seq<int>>, b: nat)
    requires b < |bs|
    ensures Live(bs[b]) <= Stored(bs)
  {
    LiveInPrefix(bs, b, |bs|);
  }

  lemma {:induction false} PrefixAllEmpty(bs: seq<seq<int>>, n: nat)
    requires n <= |bs|
    requires forall b, i :: 0 <= b < |bs| && 0 <= i < |bs[b]| ==> bs[b][i] == Empty
    ensures StoredPrefix(bs, n) == multiset{}
    decreases n
  {
    if n > 0 {
      PrefixAllEmpty(bs, n - 1);
      var row := bs[n - 1];
      forall x | x != Empty
        ensures x !in row
      {
      }
      assert Live(row) == multiset{};
    }
  }

  /** One cell write, seen from the whole table. */
  lemma PutStored(cfg: Config, s: State, b: nat, j: nat, v: int)
    requires Shaped(cfg, s) && b < cfg.size && j < cfg.cells
    ensures Stored(Put(s, b, j, v).buckets) + CellSet(s.buckets[b][j]) == Stored(s.buckets) + CellSet(v)
  {
    var row := s.buckets[b];
    assert Put(s, b, j, v).buckets == s.buckets[b := row[j := v]];
    StoredUpdate(s.buckets, b, row[j := v]);
    LiveUpdate(row, j, v);
    Cancel(Stored(s.buckets[b := row[j := v]]), Stored(s.buckets), CellSet(row[j]), CellSet(v),
           Live(row), Live(row[j := v]));
  }

  /** Filling an empty cell adds exactly the value written to the table's fingerprints. */
  lemma FillStored(cfg: Config, s: State, b: nat, j: nat, v: int)
    requires Shaped(cfg, s) && b < cfg.size && j < cfg.cells
    requires s.buckets[b][j] == Empty && v != Empty
    ensures Stored(Fill(cfg, s, b, j, v).buckets) == Stored(s.buckets) + multiset{v}
  {
    assert Fill(cfg, s, b, j, v).buckets == Put(s, b, j, v).buckets;
    PutStored(cfg, s, b, j, v);
    assert CellSet(s.buckets[b][j]) == multiset{};
  }

  /** Overwriting a full cell trades the old fingerprint for the new one. */
  lemma SwapStored(cfg: Config, s: State, b: nat, j: nat, v: int)
    requires Shaped(cfg, s) && b < cfg.size && j < cfg.cells
    requires s.buckets[b][j] != Empty && v != Empty
    ensures Stored(Put(s, b, j, v).buckets) + multiset{s.buckets[b][j]} == Stored(s.buckets) + multiset{v}
  {
    PutStored(cfg, s, b, j, v);
  }

  // ------------------------------------------------------ adaptive counters

  /** A placement into an empty cell keeps fp_count and cf_num_items exact. */
  lemma FillKeepsCounts(cfg: Config, s: State, b: nat, j: nat, v: int)
    requires ValidConfig(cfg) && CountsMatch(cfg, s) && b < cfg.size && j < cfg.cells
    requires s.buckets[b][j] == Empty && v != Empty
    ensures CountsMatch(cfg, Fill(cfg, s, b, j, v))
  {
    var row := s.buckets[b];
    var s' := Fill(cfg, s, b, j, v);
    assert s'.buckets == s.buckets[b := row[j := v]];
    assert s'.counts == s.counts[b := Inc8(s.counts[b])];
    LiveSize(row);
    assert row[j] == Empty && Empty in row;
    assert s.counts[b] < 255;
    LiveUpdate(row, j, v);
    assert |Live(row[j := v])| == |Live(row)| + 1;
    FillStored(cfg, s, b, j, v);
    forall b' | 0 <= b' < cfg.size
      ensures s'.counts[b'] == |Live(s'.buckets[b'])|
    {
      if b' != b {
        assert s'.buckets[b'] == s.buckets[b'];
      }
    }
  }

  /** An eviction that replaces a fingerprint by another keeps fp_count and cf_num_items exact. */
  lemma PutKeepsCounts(cfg: Config, s: State, b: nat, j: nat, v: int)
    requires CountsMatch(cfg, s) && b < cfg.size && j < cfg.cells
    requires s.buckets[b][j] != Empty && v != Empty
    ensures CountsMatch(cfg, Put(s, b, j, v))
  {
    var row := s.buckets[b];
    var s' := Put(s, b, j, v);
    assert s'.buckets == s.buckets[b := row[j := v]];
    LiveUpdate(row, j, v);
    assert |Live(row[j := v])| == |Live(row)|;
    SwapStored(cfg, s, b, j, v);
    SizeBalance(Stored(s'.buckets), Stored(s.buckets), multiset{row[j]}, multiset{v});
    forall b' | 0 <= b' < cfg.size
      ensures s'.counts[b'] == |Live(s'.buckets[b'])|
    {
      if b' != b {
        assert s'.buckets[b'] == s.buckets[b'];
      }
    }
  }

  /** Scrub's removal of a fingerprint keeps fp_count and cf_num_items exact and takes exactly that fingerprint out. */
  lemma ClearKeepsCounts(cfg: Config, s: State, b: nat, j: nat)
    requires CountsMatch(cfg, s) && b < cfg.size && j < cfg.cells
    requires s.buckets[b][j] != Empty
    ensures CountsMatch(cfg, Clear(cfg, s, b, j))
    ensures Stored(Clear(cfg, s, b, j).buckets) + multiset{s.buckets[b][j]} == Stored(s.buckets)
  {
    var row := s.buckets[b];
    var s' := Clear(cfg, s, b, j);
    assert s'.buckets == s.buckets[b := row[j := Empty]];
    assert s'.counts == s.counts[b := Dec8(s.counts[b])];
    LiveUpdate(row, j, Empty);
    assert Live(row[j := Empty]) + multiset{row[j]} == Live(row);
    assert |Live(row[j := Empty])| + 1 == |Live(row)|;
    PutStored(cfg, s, b, j, Empty);
    assert Stored(s'.buckets) + multiset{row[j]} == Stored(s.buckets);
    forall b' | 0 <= b' < cfg.size
      ensures s'.counts[b'] == |Live(s'.buckets[b'])|
    {
      if b' != b {
        assert s'.buckets[b'] == s.buckets[b'];
      }
    }
  }

  /** A bucket counted full in adaptive mode has no empty cell. */
  lemma FullBucket(cfg: Config, s: State, b: nat, j: nat)
    requires CountsMatch(cfg, s) && b < cfg.size && j < cfg.cells && s.counts[b] == cfg.cells
    ensures s.buckets[b][j] != Empty
  {
    LiveSize(s.buckets[b]);
  }

  // ------------------------------------------------------------- pairs

  /** The pair of a key's fingerprint is closed: the partner of a pair bucket is a pair bucket. */
  lemma PairClosed(cfg: Config, key: uint64, b: nat)
    requires ValidConfig(cfg) && b < cfg.size && InPair(cfg, key, b)
    ensures InPair(cfg, key, Partner(cfg, b, Fingerprint(cfg, key)))
  {
    var p := Primary(cfg, key);
    var fp := Fingerprint(cfg, key);
    if b != p {
      XorSelfInverse(p, Hash(ToUint64(fp), 2, cfg.size));
    }
  }

  /**
   * Writing v into cell (b, j) keeps every stored key stored, unless the cell
   * overwritten held the key's fingerprint in one of its buckets; writing the
   * key's fingerprint into one of its buckets stores the key.
   */
  lemma FoundAfterWrite(cfg: Config, s: State, s': State, b: nat, j: nat, v: int, key: uint64)
    requires ValidConfig(cfg) && Shaped(cfg, s) && Shaped(cfg, s') && b < cfg.size && j < cfg.cells
    requires s'.buckets == s.buckets[b := s.buckets[b][j := v]]
    ensures Found(cfg, s, key) ==>
              Found(cfg, s', key) || (s.buckets[b][j] == Fingerprint(cfg, key) && InPair(cfg, key, b))
    ensures v == Fingerprint(cfg, key) && InPair(cfg, key, b) ==> Found(cfg, s', key)
  {
    var p := Primary(cfg, key);
    var fp := Fingerprint(cfg, key);
    var a := Partner(cfg, p, fp);
    if Found(cfg, s, key) && !(s.buckets[b][j] == fp && InPair(cfg, key, b)) {
      var x := if fp in s.buckets[p] then p else a;
      var i :| 0 <= i < cfg.cells && s.buckets[x][i] == fp;
      assert x != b || i != j;
      assert s'.buckets[x][i] == fp;
    }
    if v == fp && InPair(cfg, key, b) {
      assert s'.buckets[b][j] == fp;
    }
  }
}
