// The CF class itself: the bucket table, the occupancy counters, the item
// count and the victim pair as mutable state, and each operation as a
// method proved to compute the function of model.dfy that describes it.
//
// Every `rand()` the source draws is read from an injected stream `rnd` at
// a cursor the methods take and return; the cell scrub gives up in each
// full bucket is the injected choice `picks`.

module Filter {
  import opened Bits
  import opened Hashing
  import opened CuckooModel
  import opened TableFacts

  class CuckooFilter {
    const mode: int
    const size: nat
    const cells: nat
    const fpSize: nat
    const fpBSize: nat
    const scrubIter: int
    /** The constructor's `f`, which the source keeps only through fp_size and fp_bsize. */
    ghost const f: nat

    const table: array2<int>
    const fpCount: array<int>
    var numItems: int
    var victimPointer: int
    var victimFingerprint: int

    /** The cells of `table`, bucket by bucket. */
    ghost var buckets: seq<seq<int>>

    ghost function Cfg(): Config
    {
      Config(mode, size, cells, f, scrubIter)
    }

    /** The filter as a value of the model. */
    ghost function Abs(): State
      reads this, fpCount
    {
      State(buckets, fpCount[..], numItems, victimPointer, victimFingerprint)
    }

    ghost predicate Valid()
      reads this, table, fpCount
    {
      && ValidConfig(Cfg())
      && fpSize == FpSize(Cfg()) && fpBSize == FpBSize(Cfg())
      && table.Length0 == size && table.Length1 == cells && fpCount.Length == size
      && Shaped(Cfg(), Abs())
      && (forall b, j :: 0 <= b < size && 0 <= j < cells ==> table[b, j] == buckets[b][j])
    }

    /** CF(mode, size, cells, f, scrub_iterations): an empty table, counters by mode (lines 20-53). */
    constructor (mode: int, size: nat, cells: nat, f: nat, scrubIterations: int)
      requires ValidConfig(Config(mode, size, cells, f, scrubIterations))
      ensures Valid() && fresh(table) && fresh(fpCount)
      ensures Cfg() == Config(mode, size, cells, f, scrubIterations)
      ensures Abs() == Init(Cfg())
    {
      this.mode := mode;
      this.size := size;
      this.cells := cells;
      this.f := f;
      fpSize := Pow2(f);
      fpBSize := Pow2((f * 4) / 3);
      scrubIter := scrubIterations;
      table := new int[size, cells];
      fpCount := new int[size];
      numItems := 0;
      victimFingerprint := -1;
      victimPointer := -1;
      new;
      var start := if mode == 1 then 0 else cells;
      var i := 0;
      while i < size
        invariant 0 <= i <= size
        invariant forall b :: 0 <= b < i ==> fpCount[b] == start
        invariant forall b, j :: 0 <= b < i && 0 <= j < cells ==> table[b, j] == Empty
        modifies table, fpCount
      {
        fpCount[i] := start;
        var j := 0;
        while j < cells
          invariant 0 <= j <= cells
          invariant forall b, k :: 0 <= b < i && 0 <= k < cells ==> table[b, k] == Empty
          invariant forall k :: 0 <= k < j ==> table[i, k] == Empty
          modifies table
        {
          table[i, j] := Empty;
          j := j + 1;
        }
        i := i + 1;
      }
      ghost var init := Init(Cfg());
      buckets := init.buckets;
      assert fpCount[..] == init.counts;
    }

    /** `table[b][j] = v`. */
    method Write(b: nat, j: nat, v: int)
      requires Valid() && b < size && j < cells
      modifies this, table
      ensures Valid() && Abs() == Put(old(Abs()), b, j, v)
    {
      table[b, j] := v;
      buckets := buckets[b := buckets[b][j := v]];
    }

    /** `fp_count[b]++; cf_num_items++;` */
    method CountIn(b: nat)
      requires Valid() && b < size
      modifies this, fpCount
      ensures Valid()
      ensures Abs() == old(Abs()).(counts := old(Abs()).counts[b := Inc8(old(Abs()).counts[b])],
                                   items := old(Abs()).items + 1)
    {
      fpCount[b] := Inc8(fpCount[b]);
      numItems := numItems + 1;
    }

    /** `fp_count[b]--; cf_num_items--;` */
    method CountOut(b: nat)
      requires Valid() && b < size
      modifies this, fpCount
      ensures Valid()
      ensures Abs() == old(Abs()).(counts := old(Abs()).counts[b := Dec8(old(Abs()).counts[b])],
                                   items := old(Abs()).items - 1)
    {
      fpCount[b] := Dec8(fpCount[b]);
      numItems := numItems - 1;
    }

    /** A placement into cell j of bucket b, with its two counters. */
    method Place(b: nat, j: nat, v: int)
      requires Valid() && b < size && j < cells
      modifies this, table, fpCount
      ensures Valid() && Abs() == Fill(Cfg(), old(Abs()), b, j, v)
    {
      Write(b, j, v);
      CountIn(b);
    }

    /** Fills cell j of bucket b with v if it is empty (`if (table[b][j] == -1) { ... }`). */
    method TryCell(b: nat, j: nat, v: int) returns (placed: bool)
      requires Valid() && b < size && j < cells
      modifies this, table, fpCount
      ensures Valid()
      ensures placed == (old(Abs()).buckets[b][j] == Empty)
      ensures Abs() == if placed then Fill(Cfg(), old(Abs()), b, j, v) else old(Abs())
    {
      placed := table[b, j] == Empty;
      if placed {
        Place(b, j, v);
      }
    }

    /**
     * The two buckets probed at one cell index (lines 110-117): on coin 0 p is
     * reduced and p1 is its partner; on coin 1 p moves to its partner and p1 is
     * the moved p again.
     */
    method Probes(p0: nat, fingerprint: int, coin: int) returns (p: nat, p1: nat)
      requires Valid() && p0 < size
      ensures (p, p1) == Candidates(Cfg(), p0, fingerprint, coin)
    {
      var h := Hash(ToUint64(fingerprint), 2, size);
      XorBelow(p0, h, size);
      SmallMod(p0, size);
      if coin == 0 {
        p := p0 % size;
        p1 := Xor(p, h);
      } else {
        p := Xor(p0, h);
        SmallMod(p, size);
        p1 := p % size;
      }
    }

    /**
     * The admission tier for bucket b in round t (lines 122-203): any bucket
     * for a plain insertion, else one below cf_cells - 1 before round si and
     * one below cf_cells from then on.
     */
    method Admitted(b: nat, si: int, t: int) returns (ok: bool)
      requires Valid() && b < size
      ensures ok == Admits(Cfg(), Abs().counts[b], si, t)
    {
      if si == 0 {
        ok := true;
      } else if t < si {
        ok := fpCount[b] < cells - 1;
      } else {
        ok := fpCount[b] < cells;
      }
    }

    /**
     * One cell index jj of round t of insert_scrub (lines 106-203): the coin
     * picks the candidate pair, and the first of them the admission tier lets
     * in whose cell jj is empty takes the fingerprint. Otherwise the walk goes
     * on from the moved p.
     */
    method ScanCell(p0: nat, fingerprint: int, si: int, t: int, jj: nat, rnd: nat -> nat, c: nat)
      returns (placed: bool, p: nat, next: nat)
      requires Valid() && p0 < size && 1 <= t <= MaxRounds && jj < cells
      modifies this, table, fpCount
      ensures Valid() && p < size
      ensures var o := Scan(Cfg(), old(Abs()), p0, fingerprint, si, t, jj, rnd, c);
              if placed then Abs() == o.s && o.ret == t && next == o.cursor
              else Abs() == old(Abs()) && o == Walk(Cfg(), Abs(), p, fingerprint, si, t, jj + 1, rnd, next)
    {
      var p1: nat;
      p, p1 := Probes(p0, fingerprint, rnd(c) % 2);
      next := c + 1;
      var admitted := Admitted(p, si, t);
      placed := false;
      if admitted {
        placed := TryCell(p, jj, fingerprint);
      }
      if !placed {
        admitted := Admitted(p1, si, t);
        if admitted {
          SmallMod(p1, size);
          p1 := p1 % size;
          placed := TryCell(p1, jj, fingerprint);
        }
      }
    }

    /**
     * The end of round t of insert_scrub (lines 209-231): a coin picks the
     * bucket of the pair, a draw picks its cell, the fingerprint overwrites
     * that cell, and the one it pushes out, if any, is carried on from there.
     */
    method EvictCell(p0: nat, fingerprint: int, si: int, t: int, rnd: nat -> nat, c: nat)
      returns (done: bool, p: nat, pushed: int, next: nat)
      requires Valid() && p0 < size && 1 <= t <= MaxRounds
      modifies this, table, fpCount
      ensures Valid() && p < size
      ensures var o := Evict(Cfg(), old(Abs()), p0, fingerprint, si, t, rnd, c);
              if done then Abs() == o.s && o.ret == t && next == o.cursor
              else o == Walk(Cfg(), Abs(), p, pushed, si, t + 1, 0, rnd, next)
    {
      var j: nat := rnd(c) % 2;
      p := Xor(p0, j * Hash(ToUint64(fingerprint), 2, size)) % size;
      var jj := rnd(c + 1) % cells;
      next := c + 2;
      assert p == EvictionBucket(Cfg(), p0, fingerprint, j);
      pushed := table[p, jj];
      Write(p, jj, fingerprint);
      done := pushed == Empty;
      if done {
        CountIn(p);
      }
    }

    /**
     * insert_scrub(p, fingerprint, scrub_iterations) (lines 95-240): the walk
     * of the model, with the random values it draws read from `rnd` from
     * index c on; `next` is the index after the last one drawn.
     */
    method InsertScrub(p0: nat, fp0: int, si: int, rnd: nat -> nat, c: nat) returns (ret: int, next: nat)
      requires Valid() && p0 < size
      modifies this, table, fpCount
      ensures Valid()
      ensures var o := Walk(Cfg(), old(Abs()), p0, fp0, si, 1, 0, rnd, c);
              Abs() == o.s && ret == o.ret && next == o.cursor
    {
      ghost var target := Walk(Cfg(), Abs(), p0, fp0, si, 1, 0, rnd, c);
      var p: nat, fingerprint: int, cur: nat := p0, fp0, c;
      var t: int := 1;
      while t <= 1000
        invariant Valid() && 1 <= t <= MaxRounds + 1 && p < size
        invariant Walk(Cfg(), Abs(), p, fingerprint, si, t, 0, rnd, cur) == target
        decreases MaxRounds + 1 - t
      {
        var placed, done;
        placed, p, cur := ScanRound(p, fingerprint, si, t, rnd, cur);
        if placed {
          return t, cur;
        }
        done, p, fingerprint, cur := EvictCell(p, fingerprint, si, t, rnd, cur);
        if done {
          return t, cur;
        }
        t := t + 1;
      }
      Strand(p, fingerprint);
      return -1, cur;
    }

    /** The cell loop of one round of insert_scrub (lines 106-204): cells 0 .. cf_cells - 1 in turn. */
    method ScanRound(p0: nat, fingerprint: int, si: int, t: int, rnd: nat -> nat, c: nat)
      returns (placed: bool, p: nat, next: nat)
      requires Valid() && p0 < size && 1 <= t <= MaxRounds
      modifies this, table, fpCount
      ensures Valid() && p < size
      ensures var o := Walk(Cfg(), old(Abs()), p0, fingerprint, si, t, 0, rnd, c);
              if placed then Abs() == o.s && o.ret == t && next == o.cursor
              else Abs() == old(Abs()) && o == Evict(Cfg(), Abs(), p, fingerprint, si, t, rnd, next)
    {
      ghost var target := Walk(Cfg(), Abs(), p0, fingerprint, si, t, 0, rnd, c);
      p, next := p0, c;
      var jj: nat := 0;
      while jj < cells
        invariant Valid() && 0 <= jj <= cells && p < size
        invariant Abs() == old(Abs())
        invariant Walk(Cfg(), Abs(), p, fingerprint, si, t, jj, rnd, next) == target
        decreases cells - jj
      {
        placed, p, next := ScanCell(p, fingerprint, si, t, jj, rnd, next);
        if placed {
          return;
        }
        jj := jj + 1;
      }
      placed := false;
    }

    /** Lines 236-237: the fingerprint still in hand after the last round is kept as the victim. */
    method Strand(p: nat, fingerprint: int)
      requires Valid() && p < size
      modifies this
      ensures Valid()
      ensures Abs() == old(Abs()).(victimPointer := p, victimFingerprint := fingerprint)
    {
      victimPointer := p;
      victimFingerprint := fingerprint;
    }

    /** insert(key) (lines 75-85): the key's large fingerprint walked in from its first bucket, plain admission. */
    method Insert(key: uint64, rnd: nat -> nat, c: nat) returns (ret: int, next: nat)
      requires Valid()
      modifies this, table, fpCount
      ensures Valid()
      ensures var o := CuckooModel.Insert(Cfg(), old(Abs()), key, rnd, c);
              Abs() == o.s && ret == o.ret && next == o.cursor
    {
      var fingerprint := Hash(key, 1, fpBSize);
      var p := Hash(key, 2, size);
      p := p % size;
      ret, next := InsertScrub(p, fingerprint, 0, rnd, c);
    }

    /**
     * scrub() (lines 248-284): every bucket whose fp_count equals cf_cells gives
     * up the fingerprint in cell `picks(p) % cf_cells`, which is reinserted from
     * that bucket with cf_scrub_iter.
     */
    method Scrub(picks: nat -> nat, rnd: nat -> nat, c: nat) returns (next: nat)
      requires Valid()
      modifies this, table, fpCount
      ensures Valid()
      ensures var o := ScrubFrom(Cfg(), old(Abs()), 0, picks, rnd, c);
              Abs() == o.s && next == o.cursor
    {
      ghost var target := ScrubFrom(Cfg(), Abs(), 0, picks, rnd, c);
      next := c;
      var p: nat := 0;
      while p < size
        invariant Valid() && p <= size
        invariant var o := ScrubFrom(Cfg(), Abs(), p, picks, rnd, next);
                  o.s == target.s && o.cursor == target.cursor
      {
        next := ScrubBucket(p, picks, rnd, next);
        p := p + 1;
      }
    }

    /** One pass of scrub's loop (lines 255-282): bucket p, if it is full, has one fingerprint reinserted. */
    method ScrubBucket(p: nat, picks: nat -> nat, rnd: nat -> nat, c: nat) returns (next: nat)
      requires Valid() && p < size
      modifies this, table, fpCount
      ensures Valid()
      ensures var o, o' := ScrubFrom(Cfg(), old(Abs()), p, picks, rnd, c), ScrubFrom(Cfg(), Abs(), p + 1, picks, rnd, next);
              o'.s == o.s && o'.cursor == o.cursor
    {
      next := c;
      if fpCount[p] == cells {
        ghost var s := Abs();
        var q := picks(p) % cells;
        var fingerprint := table[p, q];
        Write(p, q, Empty);
        CountOut(p);
        assert Abs() == Clear(Cfg(), s, p, q);
        var _, n := InsertScrub(p, fingerprint, scrubIter, rnd, next);
        next := n;
      }
    }

    /**
     * random_remove() (lines 291-313) once its draws have hit the non-empty
     * cell (p1, p2): the cell is cleared, the counters drop by one and the
     * later cells of the bucket move one place forward.
     */
    method RandomRemove(p1: nat, p2: nat)
      requires Valid() && p1 < size && p2 < cells && table[p1, p2] != Empty
      modifies this, table, fpCount
      ensures Valid() && Abs() == RemoveAt(Cfg(), old(Abs()), p1, p2)
    {
      ghost var row := buckets[p1];
      Write(p1, p2, Empty);
      CountOut(p1);
      ShiftDown(p1, p2);
      assert Compact(row[p2 := Empty], p2) == Compact(row, p2) by {
        assert row[p2 := Empty][..p2] == row[..p2];
        assert row[p2 := Empty][p2 + 1..] == row[p2 + 1..];
      }
    }

    /** The loop of random_remove (lines 307-312): the cells after the empty cell c of bucket b move one place forward. */
    method ShiftDown(b: nat, c: nat)
      requires Valid() && b < size && c < cells && table[b, c] == Empty
      modifies this, table
      ensures Valid()
      ensures Abs() == old(Abs()).(buckets := old(Abs()).buckets[b := Compact(old(Abs()).buckets[b], c)])
    {
      ghost var row := buckets[b];
      var k := c;
      while k < cells - 1
        invariant c <= k <= cells - 1
        invariant forall j :: 0 <= j < c ==> table[b, j] == row[j]
        invariant forall j :: c <= j < k ==> table[b, j] == row[j + 1]
        invariant table[b, k] == Empty
        invariant forall j :: k < j < cells ==> table[b, j] == row[j]
        invariant forall b', j :: 0 <= b' < size && b' != b && 0 <= j < cells ==> table[b', j] == buckets[b'][j]
        modifies table
      {
        table[b, k] := table[b, k + 1];
        table[b, k + 1] := Empty;
        k := k + 1;
      }
      buckets := buckets[b := Compact(row, c)];
    }

    /**
     * query(key) (lines 320-356): the victim pair under the width of the key's
     * first bucket, then each of the two probes over all cells of its bucket.
     */
    method Query(key: uint64) returns (found: bool)
      requires Valid()
      ensures found == Lookup(Cfg(), Abs(), key)
    {
      var p := Hash(key, 2, size);
      var fpValue := if fpCount[p] < cells then fpBSize else fpSize;
      var fingerprint := Hash(key, 1, fpValue);
      fingerprint := fingerprint % fpValue;
      if fingerprint == victimFingerprint && p == victimPointer {
        return true;
      }
      var j: nat := 0;
      while j < 2
        invariant j <= 2
        invariant forall i :: 0 <= i < j ==> !Probe(Cfg(), Abs(), key, i)
      {
        fingerprint := Hash(key, 1, fpBSize);
        fingerprint := fingerprint % fpBSize;
        p := Xor(Hash(key, 2, size), j * Hash(ToUint64(fingerprint), 2, size));
        p := p % size;
        fpValue := if fpCount[p] < cells then fpBSize else fpSize;
        fingerprint := Hash(key, 1, fpValue);
        fingerprint := fingerprint % fpValue;
        var jj := 0;
        while jj < cells
          invariant jj <= cells
          invariant forall k :: 0 <= k < jj ==> CRem(buckets[p][k], fpValue) != fingerprint
        {
          if CRem(table[p, jj], fpValue) == fingerprint {
            return true;
          }
          jj := jj + 1;
        }
        j := j + 1;
      }
      return false;
    }

    /** get_fingerprints() (lines 379-389): the number of non-empty cells, the fingerprints the table holds. */
    method GetFingerprints() returns (fingerprints: nat)
      requires Valid()
      ensures fingerprints == |Stored(Abs().buckets)|
      ensures CountsMatch(Cfg(), Abs()) ==> fingerprints == numItems
    {
      fingerprints := 0;
      var i := 0;
      while i < size
        invariant i <= size
        invariant fingerprints == |StoredPrefix(buckets, i)|
      {
        var n := BucketFingerprints(i);
        fingerprints := fingerprints + n;
        i := i + 1;
      }
    }

    /** The inner loop of get_fingerprints (lines 384-386): the non-empty cells of bucket i. */
    method BucketFingerprints(i: nat) returns (n: nat)
      requires Valid() && i < size
      ensures n == |Live(buckets[i])|
    {
      n := 0;
      var j := 0;
      while j < cells
        invariant j <= cells
        invariant n == |Live(buckets[i][..j])|
      {
        LiveSnoc(buckets[i], j);
        if table[i, j] != Empty {
          n := n + 1;
        }
        j := j + 1;
      }
      assert buckets[i][..cells] == buckets[i];
    }
  }
}
