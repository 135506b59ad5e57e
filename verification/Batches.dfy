/** auth/ed25519.go: signatures are split into batches, and each full batch is handed out as a verification job. */
module Batches {
  import opened Base

  datatype Item = Item(msg: seq<byte>, signer: seq<byte>, signature: seq<byte>)

  /** `ed25519.Batch`; a job (`VerifyAsync`) is a reference to the batch it will verify when it runs. */
  class Batch {
    var items: seq<Item>

    constructor ()
      ensures items == []
    {
      items := [];
    }

    method Add(item: Item)
      modifies this
      ensures items == old(items) + [item]
    {
      items := items + [item];
    }
  }

  /** `max(count/cores, ed25519.MinBatchSize)`. */
  function BatchSize(cores: nat, count: nat, minBatchSize: nat): nat
    requires cores >= 1
  {
    if count / cores < minBatchSize then minBatchSize else count / cores
  }

  function Concat(parts: seq<seq<Item>>): seq<Item> {
    if parts == [] then [] else Concat(parts[..|parts| - 1]) + parts[|parts| - 1]
  }

  class ED25519Batch {
    const batchSize: nat
    const total: nat
    var counter: nat
    var totalCounter: nat
    var batch: Batch?

    ghost var added: seq<Item>          // everything added so far
    ghost var closed: seq<Batch>        // the batches handed out and replaced by a new one, in order
    ghost var snapshots: seq<seq<Item>> // what each held when it was handed out

    /** The closed batches are distinct and full, and unchanged since they were handed out. */
    ghost predicate ClosedIntact()
      reads this, closed
    {
      && |closed| == |snapshots|
      && (forall i, j :: 0 <= i < j < |closed| ==> closed[i] != closed[j])
      && (forall i :: 0 <= i < |closed| ==> closed[i].items == snapshots[i] && |snapshots[i]| == batchSize)
    }

    /** The current batch holds all that the closed ones do not. */
    ghost predicate Collecting()
      reads this, batch
    {
      batch != null && batch !in closed && added == Concat(snapshots) + batch.items
    }

    /**
      How much the current batch holds, up to the announced total: what came since the last one was
      handed out, or a whole batch when that was the last. Beyond the total it only grows.
     */
    ghost predicate Bounded()
      reads this, batch
    {
      batch != null && totalCounter <= total ==>
        |batch.items| == if counter == 0 && totalCounter == total then batchSize else counter
    }

    ghost predicate Valid()
      reads this, batch, closed
    {
      && 1 <= batchSize
      && |added| == totalCounter
      && counter == totalCounter % batchSize
      && ClosedIntact()
      && (batch == null ==> totalCounter == 0 && closed == [])
      && (batch != null ==> totalCounter > 0 && Collecting() && Bounded())
    }

    /** `GetBatchVerifier`. */
    constructor (cores: nat, count: nat, minBatchSize: nat)
      requires 1 <= cores && 1 <= minBatchSize
      ensures Valid() && fresh(this) && totalCounter == 0
      ensures batchSize == BatchSize(cores, count, minBatchSize) && total == count
      ensures minBatchSize <= batchSize && count / cores <= batchSize && batchSize in {minBatchSize, count / cores}
      ensures added == [] && closed == []
    {
      batchSize := BatchSize(cores, count, minBatchSize);
      total := count;
      counter, totalCounter, batch := 0, 0, null;
      added, closed, snapshots := [], [], [];
    }

    /**
      Adds a signature. Every batchSize-th Add hands out the current batch; a new one takes its place
      unless the announced total has been reached, after which the same batch is handed out again.
     */
    method Add(item: Item) returns (job: Batch?)
      requires Valid()
      modifies this, batch
      ensures Valid() && totalCounter == old(totalCounter) + 1
      ensures added == old(added) + [item]
      ensures job != null <==> totalCounter % batchSize == 0
      ensures closed == if job != null && totalCounter < total then old(closed) + [job] else old(closed)
      ensures job != null && totalCounter >= total ==> job == batch
      ensures old(snapshots) <= snapshots
      ensures batch == old(batch) || fresh(batch)
    {
      CountOneMore(totalCounter, batchSize);
      Append(item);
      if counter == batchSize {
        job := HandOut();
      } else {
        job := null;
      }
    }

    method Append(item: Item)
      requires Valid()
      modifies this`batch, this`added, this`counter, this`totalCounter, batch
      ensures Collecting() && ClosedIntact()
      ensures totalCounter <= total ==> |batch.items| == counter
      ensures totalCounter == old(totalCounter) + 1 && counter == old(counter) + 1
      ensures added == old(added) + [item]
      ensures batch == old(batch) || fresh(batch)
    {
      if batch == null {
        batch := new Batch();
      }
      batch.Add(item);
      added := added + [item];
      counter := counter + 1;
      totalCounter := totalCounter + 1;
    }

    /** The current batch becomes a job, and a new one is begun unless all announced signatures are in. */
    method HandOut() returns (last: Batch)
      requires Collecting() && ClosedIntact() && counter == batchSize
      requires totalCounter <= total ==> |batch.items| == counter
      modifies this`batch, this`counter, this`closed, this`snapshots
      ensures last == old(batch) && ClosedIntact() && Collecting() && Bounded() && counter == 0
      ensures if totalCounter < total
              then fresh(batch) && closed == old(closed) + [last] && snapshots == old(snapshots) + [last.items]
              else batch == last && closed == old(closed) && snapshots == old(snapshots)
    {
      last := batch;
      counter := 0;
      if totalCounter < total {
        closed, snapshots := closed + [last], snapshots + [last.items];
        assert snapshots[..|snapshots| - 1] == old(snapshots);
        batch := new Batch();
      }
    }

    /** Hands out the current batch, even when Add has handed it out already. */
    method Done() returns (jobs: seq<Batch>)
      requires Valid()
      ensures jobs == if totalCounter == 0 then [] else [batch]
    {
      if batch == null {
        return [];
      }
      return [batch];
    }
  }

  lemma Divides(n: nat, size: nat, q: nat, r: nat)
    requires r < size && n == q * size + r
    ensures n / size == q && n % size == r
  {
    assert n == (n / size) * size + n % size;
    assert (n / size - q) * size == r - n % size;
    ProductOrder(n / size - q, 1, size);
    ProductOrder(-1, n / size - q, size);
  }

  /** Counting one more either fills a batch or adds to it. */
  lemma CountOneMore(n: nat, size: nat)
    requires 1 <= size
    ensures n % size + 1 == size ==> (n + 1) / size == n / size + 1 && (n + 1) % size == 0
    ensures n % size + 1 < size ==> (n + 1) / size == n / size && (n + 1) % size == n % size + 1
  {
    assert n == (n / size) * size + n % size;
    if n % size + 1 == size {
      assert (n / size + 1) * size == (n / size) * size + size;
      Divides(n + 1, size, n / size + 1, 0);
    } else {
      Divides(n + 1, size, n / size, n % size + 1);
    }
  }

  // ---------- how many jobs ----------

  /** The jobs of a run with `count` signatures. */
  function JobCount(count: nat, size: nat): nat
    requires 1 <= size
  {
    if count == 0 then 0 else count / size + 1
  }

  /** A batch larger than an equal share: fewer full batches than cores. */
  lemma LargeBatches(cores: nat, count: nat, size: nat)
    requires 1 <= cores && count / cores < size
    ensures count / size < cores
  {
    var share := count / cores;
    assert count == share * cores + count % cores;
    assert count == (count / size) * size + count % size;
    ProductMonotone(share + 1, size, cores);
    assert (share + 1) * cores == share * cores + cores;
    ProductOrder(count / size, cores, size);
  }

  /** Batches of exactly an equal share: what is left over after one for each core is below the number of cores. */
  lemma EqualBatches(cores: nat, count: nat, size: nat)
    requires 1 <= cores && 1 <= size == count / cores
    ensures count / size < 2 * cores
  {
    assert count == size * cores + count % cores;
    assert count == (count / size) * size + count % size;
    ProductMonotone(1, size, cores);
    assert (2 * cores) * size == size * cores + size * cores;
    ProductOrder(count / size, 2 * cores, size);
  }

  /** Whichever way the batch size was chosen, there are at most two jobs for every core. */
  lemma JobBound(cores: nat, count: nat, minBatchSize: nat)
    requires 1 <= cores && 1 <= minBatchSize
    ensures JobCount(count, BatchSize(cores, count, minBatchSize)) <= 2 * cores
  {
    if count / cores < minBatchSize {
      LargeBatches(cores, count, minBatchSize);
    } else {
      EqualBatches(cores, count, count / cores);
    }
  }

  lemma ProductMonotone(a: nat, b: nat, n: nat)
    requires a <= b
    ensures a * n <= b * n
  {
  }

  // ---------- a whole run ----------

  ghost function Contents(jobs: seq<Batch>): (parts: seq<seq<Item>>)
    reads jobs
    ensures |parts| == |jobs|
    ensures forall i :: 0 <= i < |jobs| ==> parts[i] == jobs[i].items
  {
    seq(|jobs|, i requires 0 <= i < |jobs| reads jobs => jobs[i].items)
  }

  /** The last job is the one before it again: the signatures filled their batches exactly. */
  predicate LastRepeated(count: nat, size: nat)
    requires 1 <= size
  {
    count > 0 && count % size == 0
  }

  method AddAll(cores: nat, minBatchSize: nat, items: seq<Item>) returns (b: ED25519Batch, jobs: seq<Batch>)
    requires 1 <= cores && 1 <= minBatchSize
    ensures b.Valid() && b.total == b.totalCounter == |items| && b.added == items
    ensures b.batchSize == BatchSize(cores, |items|, minBatchSize)
    ensures jobs == b.closed + if LastRepeated(|items|, b.batchSize) then [b.batch] else []
    ensures |jobs| == |items| / b.batchSize
  {
    b := new ED25519Batch(cores, |items|, minBatchSize);
    jobs := [];
    for i := 0 to |items|
      invariant b.Valid() && fresh(b) && (b.batch == null || fresh(b.batch))
      invariant b.total == |items| && b.totalCounter == i && b.added == items[..i]
      invariant b.batchSize == BatchSize(cores, |items|, minBatchSize)
      invariant jobs == b.closed + if i == |items| && LastRepeated(i, b.batchSize) then [b.batch] else []
      invariant |jobs| == i / b.batchSize
    {
      CountOneMore(i, b.batchSize);
      var job := b.Add(items[i]);
      if job != null {
        jobs := jobs + [job];
      }
    }
    assert items[..|items|] == items;
  }

  /**
    Exactly as many Adds as announced, then Done: apart from a last job that may be the one before it
    again, the jobs are distinct batches that together hold every signature once, in order; none
    holds more than the batch size, and there are at most two jobs for every core.
   */
  method VerifyAll(cores: nat, minBatchSize: nat, items: seq<Item>) returns (jobs: seq<Batch>)
    requires 1 <= cores && 1 <= minBatchSize
    ensures var share := |items| / cores;
            var size := if share < minBatchSize then minBatchSize else share;
      && |jobs| == (if items == [] then 0 else |items| / size + 1)
      && |jobs| <= 2 * cores
      && (LastRepeated(|items|, size) ==> |jobs| >= 2 && jobs[|jobs| - 1] == jobs[|jobs| - 2])
      && (var once := if LastRepeated(|items|, size) then jobs[..|jobs| - 1] else jobs;
          && (forall i, j :: 0 <= i < j < |once| ==> once[i] != once[j])
          && Concat(Contents(once)) == items)
      && forall i :: 0 <= i < |jobs| ==> |jobs[i].items| <= size
  {
    var b;
    b, jobs := AddAll(cores, minBatchSize, items);
    var last := b.Done();
    JobBound(cores, |items|, minBatchSize);
    jobs := jobs + last;
    ghost var once := if LastRepeated(|items|, b.batchSize) then jobs[..|jobs| - 1] else jobs;
    if b.batch == null {
      assert Contents(once) == [];
    } else {
      assert once == b.closed + [b.batch];
      assert Contents(once) == b.snapshots + [b.batch.items];
      assert (b.snapshots + [b.batch.items])[..|b.snapshots|] == b.snapshots;
    }
  }
}
