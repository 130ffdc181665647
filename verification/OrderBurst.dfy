/** The vanilla order drop (tools/check_cap_orders.py): a burst of orders, each of several records,
    runs into a queue that is wiped when it is full (single player) or into a staging list that
    refuses what does not fit (multiplayer). */
module OrderBurst {
  import opened Arithmetic

  const VANILLA_QUEUE := 300
  const VANILLA_STAGING := 300

  datatype Shape = SinglePlayer | Multiplayer

  /** A queued record: record `r` of order `k`; record 0 is the primary that applies the order. */
  datatype Record = Record(k: int, r: int)

  /** The burst as one stream: record `j` of it, with `records` records to an order. */
  function StreamRecord(j: nat, records: nat): Record
    requires records > 0
  {
    Record(j / records, j % records)
  }

  /** The stretch `[from, to)` of the stream. */
  function Stream(from: nat, to: nat, records: nat): (s: seq<Record>)
    requires records > 0 && from <= to
    ensures |s| == to - from
    ensures forall i | 0 <= i < |s| :: s[i] == StreamRecord(from + i, records)
  {
    seq(to - from, i requires 0 <= i < to - from => StreamRecord(from + i, records))
  }

  /** The stretch `[from, to)` of the order numbers. */
  function Numbers(from: int, to: int): (s: seq<int>)
    requires from <= to
    ensures |s| == to - from && forall i | 0 <= i < |s| :: s[i] == from + i
  {
    seq(to - from, i requires 0 <= i < to - from => from + i)
  }

  lemma {:induction false} DivModStep(k: nat, r: nat, records: nat)
    requires r < records
    ensures (k * records + r) / records == k && (k * records + r) % records == r
  {
    DivModUnique(k * records + r, k, r, records);
  }

  /** Reading the stream a queue position further: full means wiped and the record lost. */
  lemma QueueStep(j: nat)
    ensures (j + 1) % 301 == if j % 301 == 300 then 0 else j % 301 + 1
  {
  }

  /** The inner loop: order `k`, whose first record is number `start` of the stream, goes through
      the queue.  Full means wiped, and the record that found it full is lost too. */
  method Enqueue(count0: nat, kept0: seq<Record>, k: nat, records: nat, ghost start: nat)
    returns (count: nat, kept: seq<Record>)
    requires records > 0 && start == k * records
    requires count0 == start % 301 && kept0 == Stream(start - count0, start, records)
    ensures count == (start + records) % 301
    ensures kept == Stream(start + records - count, start + records, records)
  {
    count, kept := count0, kept0;
    for r := 0 to records
      invariant count == (start + r) % 301
      invariant kept == Stream(start + r - count, start + r, records)
    {
      QueueStep(start + r);
      DivModStep(k, r, records);
      if count >= VANILLA_QUEUE {
        count := 0;
        kept := [];
        assert kept == Stream(start + r + 1, start + r + 1, records);
      } else {
        kept := kept + [Record(k, r)];
        count := count + 1;
        assert kept == Stream(start + r + 1 - count, start + r + 1, records);
      }
    }
  }

  /** The queue loop: the queue ends up with the last `(n * records) % 301` records of the burst. */
  method RunQueue(n: int, records: int) returns (kept: seq<Record>)
    ensures n <= 0 || records <= 0 ==> kept == []
    ensures n > 0 && records > 0 ==>
              n * records >= 0 && kept == Stream(n * records - (n * records) % 301, n * records, records)
  {
    var count := 0;
    kept := [];
    if n <= 0 || records <= 0 { return; }      // an empty range: nothing is ever enqueued
    ghost var start := 0;
    for k := 0 to n
      invariant start == k * records >= 0 && count == start % 301
      invariant kept == Stream(start - count, start, records)
    {
      count, kept := Enqueue(count, kept, k, records, start);
      assert (k + 1) * records == k * records + records;
      start := start + records;
    }
  }

  /** The primaries of a stretch of the stream, as order numbers. */
  function Primaries(kept: seq<Record>): seq<int> {
    if kept == [] then []
    else Primaries(kept[..|kept| - 1]) +
         (if kept[|kept| - 1].r == 0 then [kept[|kept| - 1].k] else [])
  }

  /** The last `m` records before order `n` hold the primaries of its last `m / records` orders. */
  lemma {:induction false} PrimariesOfTail(n: nat, m: nat, records: nat)
    requires records > 0 && m <= n * records
    ensures m / records <= n
    ensures Primaries(Stream(n * records - m, n * records, records)) == Numbers(n - m / records, n)
    decreases n
  {
    if m < records {
      DivModStep(0, m, records);
      assert m / records == 0;
      NoPrimary(n, m, m, records);
    } else {
      assert n * records == (n - 1) * records + records;
      assert n >= 1;
      PrimariesOfTail(n - 1, m - records, records);
      assert m / records == (m - records) / records + 1 by {
        DivStep(m, records);
      }
      LastOrder(n, m, records);
    }
  }

  lemma {:induction false} DivStep(m: nat, records: nat)
    requires 0 < records <= m
    ensures m / records == (m - records) / records + 1
  {
    var q, r := (m - records) / records, (m - records) % records;
    assert m - records == q * records + r;
    assert m == (q + 1) * records + r by { assert (q + 1) * records == q * records + records; }
    DivModStep(q + 1, r, records);
  }

  /** A stretch that ends `at` records into the last incomplete order holds no primary. */
  lemma {:induction false} NoPrimary(n: nat, m: nat, at: nat, records: nat)
    requires at <= m < records && m <= n * records
    ensures Primaries(Stream(n * records - m, n * records - m + at, records)) == []
    decreases at
  {
    var from := n * records - m;
    if at > 0 {
      NoPrimary(n, m, at - 1, records);
      var all := Stream(from, from + at, records);
      assert all[..at - 1] == Stream(from, from + at - 1, records);
      assert 0 * records == 0;
      assert n * records == (n - 1) * records + records;
      DivModStep(n - 1, records - m + at - 1, records);
    }
  }

  /** Order `n - 1` adds its primary and nothing else. */
  lemma LastOrder(n: nat, m: nat, records: nat)
    requires n >= 1 && 0 < records <= m <= n * records
    ensures (n - 1) * records == n * records - records
    ensures Primaries(Stream(n * records - m, n * records, records))
         == Primaries(Stream(n * records - m, (n - 1) * records, records)) + [n - 1]
  {
    assert n * records == (n - 1) * records + records;
    OrderSoFar(n, m, records, records);
  }

  lemma {:induction false} OrderSoFar(n: nat, m: nat, at: nat, records: nat)
    requires n >= 1 && 0 < at <= records <= m <= n * records && (n - 1) * records == n * records - records
    ensures Primaries(Stream(n * records - m, (n - 1) * records + at, records))
         == Primaries(Stream(n * records - m, (n - 1) * records, records)) + [n - 1]
    decreases at
  {
    var from, base := n * records - m, (n - 1) * records;
    var all := Stream(from, base + at, records);
    assert all[..|all| - 1] == Stream(from, base + at - 1, records);
    DivModStep(n - 1, at - 1, records);
    assert all[|all| - 1] == Record(n - 1, at - 1);
    if at > 1 {
      OrderSoFar(n, m, at - 1, records);
      assert Primaries(all) == Primaries(Stream(from, base + at - 1, records)) + [];
    }
  }

  /** What reaches the game: the orders themselves, oldest first.  A staging list of a burst with no
      records to an order divides by zero. */
  datatype Survivors = Survivors(orders: seq<int>) | DivisionByZero

  /** Python's floor division by a non-zero divisor. */
  function FloorDiv(a: int, b: int): (q: int)
    requires b != 0
    ensures b > 0 ==> b * q <= a < b * (q + 1)
    ensures b < 0 ==> b * (q + 1) < a <= b * q
  {
    if b > 0 then a / b else (-a) / (-b)
  }

  method PredictOff(shape: Shape, n: int, records: int) returns (s: Survivors)
    ensures s.DivisionByZero? <==> shape == Multiplayer && records == 0
    ensures shape == SinglePlayer && (n <= 0 || records <= 0) ==> s == Survivors([])
    // the wipe leaves the last ((n * records) % 301) / records orders of the burst
    ensures shape == SinglePlayer && n > 0 && records > 0 ==>
              var left := (n * records) % 301 / records;
              0 <= left <= n && s == Survivors(Numbers(n - left, n))
    // a full staging list refuses: the first 300 / records orders are left
    ensures shape == Multiplayer && (n <= 0 || records < 0) ==>
              s == (if records == 0 then DivisionByZero else Survivors([]))
    ensures shape == Multiplayer && n > 0 && records > 0 ==>
              var room := 300 / records;
              s == Survivors(Numbers(0, if n <= room then n else room))
  {
    if shape == SinglePlayer {
      var kept := RunQueue(n, records);
      var survivors := [];
      for i := 0 to |kept|
        invariant survivors == Primaries(kept[..i])
      {
        assert kept[..i + 1][..i] == kept[..i] && kept[..i + 1][i] == kept[i];
        if kept[i].r == 0 {
          survivors := survivors + [kept[i].k];
        }
      }
      assert kept[..|kept|] == kept;
      if n > 0 && records > 0 {
        ModAtMost(n * records);
        PrimariesOfTail(n, (n * records) % 301, records);
      }
      return Survivors(survivors);
    }
    if records == 0 { return DivisionByZero; }
    var per := FloorDiv(VANILLA_STAGING, records);
    var m := if n <= per then n else per;
    if m <= 0 {
      return Survivors([]);
    }
    s := Survivors(Numbers(0, m));
  }

  lemma ModAtMost(a: int)
    requires a >= 0
    ensures 0 <= a % 301 <= a
  {
  }

  /** A burst comes through the vanilla queue whole exactly when its records fit. */
  lemma {:induction false} NothingLostIffItFits(n: nat, records: nat)
    requires n > 0 && records > 0
    ensures (n * records) % 301 / records == n <==> n * records <= 300
  {
    var total := n * records;
    var m := total % 301;
    ModAtMost(total);
    assert m == records * (m / records) + m % records;
    if total <= 300 {
      DivModStep(n, 0, records);
    }
  }
}
