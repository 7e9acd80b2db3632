/** ld.go, `buildModule`: the function table and the find-func buckets, and the lookup rule of
    module.go that the runtime applies to them. */
module FindFunc {
  import opened Bytes

  const MIN_FUNC := 16
  const BUCKET_SIZE := 256 * MIN_FUNC  // bytes of text per bucket
  const NSUB := 16                     // subbuckets per bucket
  const SUB_SIZE := BUCKET_SIZE / NSUB

  /** `idx` and sixteen one-byte differences from it. */
  datatype Bucket = Bucket(idx: nat, subbuckets: seq<byte>)

  const NO_SUBS: seq<byte> := [0, 0, 0, 0, 0, 0, 0, 0, 0, 0, 0, 0, 0, 0, 0, 0]

  /** Function entries as offsets from the start of the text: the first function starts the text,
      addresses do not decrease, and all lie before `maxpc`. */
  ghost predicate Entries(entry: seq<nat>, maxpc: nat) {
    && |entry| > 0 && entry[0] == 0 && entry[|entry| - 1] <= maxpc
    && forall i, j :: 0 <= i <= j < |entry| ==> entry[i] <= entry[j]
  }

  /** `ftab`: a head entry at the start of the text, one entry per function, and one at the end. */
  function Ftab(entry: seq<nat>, maxpc: nat): (t: seq<nat>)
    ensures |t| == |entry| + 2
  {
    [0] + entry + [maxpc]
  }

  // ----- the independent definition: a linear scan -----

  /** The last entry of the table at or below `pc`. */
  ghost predicate IsLastAtOrBelow(ftab: seq<nat>, pc: nat, k: nat) {
    k < |ftab| && ftab[k] <= pc && forall j :: k < j < |ftab| ==> pc < ftab[j]
  }

  // ----- the lookup -----

  /** Where the scan for `pc` starts, by the bucket and subbucket of `pc`. */
  function Start(buckets: seq<Bucket>, pc: nat): nat
    requires pc / BUCKET_SIZE < |buckets| && |buckets[pc / BUCKET_SIZE].subbuckets| == NSUB
  {
    var b := buckets[pc / BUCKET_SIZE];
    b.idx + b.subbuckets[pc % BUCKET_SIZE / SUB_SIZE]
  }

  /** No subbucket points behind a function that starts after its first byte. */
  ghost predicate Safe(b: Bucket, at: nat, n: nat, entry: seq<nat>)
    requires n < NSUB && |b.subbuckets| == NSUB
  {
    var k := b.idx + b.subbuckets[n];
    k == 0 || (k < |entry| && entry[k] <= at * BUCKET_SIZE + n * SUB_SIZE)
  }

  ghost predicate SafeBucket(b: Bucket, at: nat, entry: seq<nat>) {
    |b.subbuckets| == NSUB && forall n :: 0 <= n < NSUB ==> Safe(b, at, n, entry)
  }

  ghost predicate SafeIndex(buckets: seq<Bucket>, entry: seq<nat>) {
    forall at :: 0 <= at < |buckets| ==> SafeBucket(buckets[at], at, entry)
  }

  /** Where function `k` ends. */
  function EndOf(entry: seq<nat>, maxpc: nat, k: nat): nat
    requires k < |entry|
  {
    if k < |entry| - 1 then entry[k + 1] else maxpc
  }

  /** Function `k` is the first that reaches offset `x`: it starts below `x`, or is the very first, and ends
      at `x` or above. */
  ghost predicate FirstTo(entry: seq<nat>, maxpc: nat, k: nat, x: nat) {
    k < |entry| && (k == 0 || entry[k] < x) && x <= EndOf(entry, maxpc, k)
  }

  /** The bucket counts from the first function that reaches its start. */
  ghost predicate IndexIs(idx: nat, at: nat, entry: seq<nat>, maxpc: nat) {
    FirstTo(entry, maxpc, idx, at * 4096)
  }

  /** Subbucket `n` holds the distance, cut to one byte, to the first function that reaches its start, or
      nothing if that function is not among the first `k` or there is none. */
  ghost predicate SubIs(b: Bucket, at: nat, n: nat, entry: seq<nat>, maxpc: nat, k: nat)
    requires n < |b.subbuckets|
  {
    DistanceIs(b.subbuckets[n], b.idx, at * 4096 + n * 256, entry, maxpc, k)
  }

  ghost predicate DistanceIs(sub: byte, idx: nat, x: nat, entry: seq<nat>, maxpc: nat, k: nat) {
    && (forall j: nat :: FirstTo(entry, maxpc, j, x) ==> sub == if j < k then (j - idx) % 256 else 0)
    && (x > maxpc ==> sub == 0)
  }

  /** While function `k` is entered: the subbuckets between `li` and `n` hold it already. */
  ghost predicate Entered(b: Bucket, at: nat, j: nat, entry: seq<nat>, maxpc: nat, k: nat, li: nat, n: nat)
    requires j < |b.subbuckets|
  {
    SubIs(b, at, j, entry, maxpc, if li < j < n then k + 1 else k)
  }

  ghost predicate AllEntered(b: Bucket, at: nat, entry: seq<nat>, maxpc: nat, k: nat, li: nat, n: nat) {
    |b.subbuckets| == 16 && forall j :: 0 <= j < 16 ==> Entered(b, at, j, entry, maxpc, k, li, n)
  }

  ghost predicate BucketIs(b: Bucket, at: nat, entry: seq<nat>, maxpc: nat, k: nat) {
    && |b.subbuckets| == 16 && IndexIs(b.idx, at, entry, maxpc)
    && forall n :: 0 <= n < 16 ==> SubIs(b, at, n, entry, maxpc, k)
  }

  /** What the index is after the first `k` functions. */
  ghost predicate IndexUpTo(buckets: seq<Bucket>, entry: seq<nat>, maxpc: nat, k: nat) {
    forall at :: 0 <= at < |buckets| ==> BucketIs(buckets[at], at, entry, maxpc, k)
  }

  /** `funcbucket`: the buckets of a module with these function entries. */
  method BuildBuckets(entry: seq<nat>, maxpc: nat) returns (buckets: seq<Bucket>)
    requires Entries(entry, maxpc)
    ensures |buckets| == maxpc / 4096 + 1
    ensures IndexUpTo(buckets, entry, maxpc, |entry|)
    ensures SafeIndex(buckets, entry)
  {
    hide FirstTo, DistanceIs, IndexIs, SafeIndex, AllEntered;
    buckets := [];
    var k := 0;
    while k < |entry|
      invariant 0 <= k <= |entry|
      invariant |buckets| == if k == 0 then 0 else EndOf(entry, maxpc, k - 1) / BUCKET_SIZE + 1
      invariant IndexUpTo(buckets, entry, maxpc, k)
    {
      var lEntry := entry[k];
      var lb := lEntry / BUCKET_SIZE;
      var li := lEntry % BUCKET_SIZE / SUB_SIZE;
      var end := maxpc;
      if k < |entry| - 1 {
        end := entry[k + 1];
      }
      var b := end / BUCKET_SIZE;
      var i := end % BUCKET_SIZE / SUB_SIZE;
      var m := b - |buckets|;
      while m >= 0
        invariant m == b - |buckets| && m >= -1
        invariant k > 0 ==> |buckets| > lb
        invariant IndexUpTo(buckets, entry, maxpc, k)
        decreases m
      {
        NewBucketIs(entry, maxpc, k, |buckets|);
        buckets := buckets + [Bucket(k, NO_SUBS)];
        m := m - 1;
      }
      if lb < b {
        i := NSUB - 1;
      }
      assert i < 16 && lb * 4096 + i * 256 <= end && (i == 15 || end < lb * 4096 + i * 256 + 256);
      var n := li + 1;
      EnterNone(buckets[lb], lb, entry, maxpc, k, li, n);
      while n <= i
        invariant li + 1 <= n && i < NSUB && |buckets| == b + 1
        invariant forall at :: 0 <= at < |buckets| && at != lb ==> BucketIs(buckets[at], at, entry, maxpc, k)
        invariant IndexIs(buckets[lb].idx, lb, entry, maxpc) && AllEntered(buckets[lb], lb, entry, maxpc, k, li, n)
        decreases i - n
      {
        var bucket := buckets[lb];
        EnterSubbucket(entry, maxpc, bucket, lb, n, k, li);
        if bucket.subbuckets[n] == 0 {
          var diff := (k - bucket.idx) % 256;
          var changed := bucket.(subbuckets := bucket.subbuckets[n := diff]);
          buckets := buckets[lb := changed];
          assert buckets[lb] == changed;
        }
        n := n + 1;
      }
      IndexStep(buckets, entry, maxpc, k, lb, li, n);
      k := k + 1;
    }
    IndexSafe(buckets, entry, maxpc);
  }

  /** With the subbuckets of function `k` filled, the index is that of one function more. */
  lemma IndexStep(buckets: seq<Bucket>, entry: seq<nat>, maxpc: nat, k: nat, at: nat, li: nat, n: nat)
    requires Entries(entry, maxpc) && k < |entry| && at == entry[k] / 4096 < |buckets| && li == entry[k] % 4096 / 256
    requires forall j :: 0 <= j < |buckets| && j != at ==> BucketIs(buckets[j], j, entry, maxpc, k)
    requires IndexIs(buckets[at].idx, at, entry, maxpc) && AllEntered(buckets[at], at, entry, maxpc, k, li, n)
    requires n >= 16 || at * 4096 + n * 256 > EndOf(entry, maxpc, k)
    ensures IndexUpTo(buckets, entry, maxpc, k + 1)
  {
    hide FirstTo, DistanceIs, IndexIs, Entries;
    var next := k + 1;
    forall j | 0 <= j < |buckets| ensures BucketIs(buckets[j], j, entry, maxpc, next) {
      if j != at {
        BucketPassed(entry, maxpc, buckets[j], j, k);
      } else {
        forall m | 0 <= m < 16 ensures SubIs(buckets[at], at, m, entry, maxpc, next) {
          assert Entered(buckets[at], at, m, entry, maxpc, k, li, n);
          if !(li < m < n) {
            SubbucketPassed(entry, maxpc, buckets[at], at, m, k);
          }
        }
      }
    }
  }

  lemma FirstIsUnique(entry: seq<nat>, maxpc: nat, j: nat, k: nat, x: nat)
    requires Entries(entry, maxpc) && FirstTo(entry, maxpc, j, x) && FirstTo(entry, maxpc, k, x)
    ensures j == k
  {
  }

  lemma StartsBucket(entry: seq<nat>, maxpc: nat, k: nat, at: nat)
    requires k < |entry| && at <= EndOf(entry, maxpc, k) / BUCKET_SIZE && (k > 0 ==> at > entry[k] / BUCKET_SIZE)
    ensures IndexIs(k, at, entry, maxpc)
  {
  }

  lemma NotBefore(entry: seq<nat>, maxpc: nat, k: nat, at: nat, j: nat, x: nat)
    requires Entries(entry, maxpc) && k < |entry| && (k > 0 ==> at > entry[k] / BUCKET_SIZE) && x >= at * 4096
    requires FirstTo(entry, maxpc, j, x)
    ensures j >= k
  {
  }

  lemma ReachesStart(entry: seq<nat>, maxpc: nat, k: nat, at: nat, n: nat)
    requires Entries(entry, maxpc) && n < 16 && FirstTo(entry, maxpc, k, at * 4096 + n * 256)
    requires at != entry[k] / 4096
    ensures IndexIs(k, at, entry, maxpc)
  {
  }

  /** A fresh bucket counts from the function whose end opened it. */
  lemma NewBucketIs(entry: seq<nat>, maxpc: nat, k: nat, at: nat)
    requires Entries(entry, maxpc) && k < |entry| && at <= EndOf(entry, maxpc, k) / BUCKET_SIZE
    requires k > 0 ==> at > entry[k] / BUCKET_SIZE
    ensures BucketIs(Bucket(k, NO_SUBS), at, entry, maxpc, k)
  {
    hide FirstTo, Entries;
    StartsBucket(entry, maxpc, k, at);
    var b := Bucket(k, NO_SUBS);
    forall n | 0 <= n < 16 ensures SubIs(b, at, n, entry, maxpc, k) {
      var x := at * 4096 + n * 256;
      forall j: nat | FirstTo(entry, maxpc, j, x) ensures j >= k {
        NotBefore(entry, maxpc, k, at, j, x);
      }
    }
  }

  /** Function `k` is the first to reach the subbuckets of its own bucket that lie behind its start and not
      behind its end, and its distance is what they are to hold. */
  lemma SubbucketReached(entry: seq<nat>, maxpc: nat, bucket: Bucket, at: nat, n: nat, k: nat)
    requires Entries(entry, maxpc) && k < |entry| && n < 16 && |bucket.subbuckets| == 16
    requires at == entry[k] / 4096 && entry[k] % 4096 / 256 < n
    requires at * 4096 + n * 256 <= EndOf(entry, maxpc, k)
    requires SubIs(bucket, at, n, entry, maxpc, k)
    ensures bucket.subbuckets[n] == 0
    ensures var changed := bucket.(subbuckets := bucket.subbuckets[n := (k - bucket.idx) % 256]);
            SubIs(changed, at, n, entry, maxpc, k + 1)
  {
    var x := at * 4096 + n * 256;
    assert FirstTo(entry, maxpc, k, x);
    forall j | FirstTo(entry, maxpc, j, x) ensures j == k {
      FirstIsUnique(entry, maxpc, j, k, x);
    }
  }

  lemma EnterNone(bucket: Bucket, at: nat, entry: seq<nat>, maxpc: nat, k: nat, li: nat, n: nat)
    requires BucketIs(bucket, at, entry, maxpc, k) && n == li + 1
    ensures AllEntered(bucket, at, entry, maxpc, k, li, n)
  {
    hide SubIs;
  }

  lemma EnterSubbucket(entry: seq<nat>, maxpc: nat, bucket: Bucket, at: nat, n: nat, k: nat, li: nat)
    requires Entries(entry, maxpc) && k < |entry| && n < 16 && AllEntered(bucket, at, entry, maxpc, k, li, n)
    requires at == entry[k] / 4096 && entry[k] % 4096 / 256 == li < n
    requires at * 4096 + n * 256 <= EndOf(entry, maxpc, k)
    ensures |bucket.subbuckets| == 16 && bucket.subbuckets[n] == 0
    ensures var changed := bucket.(subbuckets := bucket.subbuckets[n := (k - bucket.idx) % 256]);
            AllEntered(changed, at, entry, maxpc, k, li, n + 1)
  {
    hide DistanceIs, Entries;
    var next := n + 1;
    var changed := bucket.(subbuckets := bucket.subbuckets[n := (k - bucket.idx) % 256]);
    assert Entered(bucket, at, n, entry, maxpc, k, li, n);
    SubbucketReached(entry, maxpc, bucket, at, n, k);
    forall j | 0 <= j < 16 ensures Entered(changed, at, j, entry, maxpc, k, li, next) {
      assert Entered(bucket, at, j, entry, maxpc, k, li, n);
    }
  }

  /** The other subbuckets of its bucket are not for function `k`. */
  lemma SubbucketPassed(entry: seq<nat>, maxpc: nat, bucket: Bucket, at: nat, n: nat, k: nat)
    requires Entries(entry, maxpc) && k < |entry| && n < 16 && |bucket.subbuckets| == 16
    requires at == entry[k] / 4096 && IndexIs(bucket.idx, at, entry, maxpc)
    requires n <= entry[k] % 4096 / 256 || at * 4096 + n * 256 > EndOf(entry, maxpc, k)
    requires SubIs(bucket, at, n, entry, maxpc, k)
    ensures SubIs(bucket, at, n, entry, maxpc, k + 1)
  {
  }

  /** Nor are those of the buckets around. */
  lemma BucketPassed(entry: seq<nat>, maxpc: nat, bucket: Bucket, at: nat, k: nat)
    requires Entries(entry, maxpc) && k < |entry| && at != entry[k] / 4096 && BucketIs(bucket, at, entry, maxpc, k)
    ensures BucketIs(bucket, at, entry, maxpc, k + 1)
  {
    hide FirstTo, Entries;
    var next := k + 1;
    forall n | 0 <= n < 16 ensures SubIs(bucket, at, n, entry, maxpc, next) {
      assert SubIs(bucket, at, n, entry, maxpc, k);
      if FirstTo(entry, maxpc, k, at * 4096 + n * 256) {
        ReachesStart(entry, maxpc, k, at, n);
        assert IndexIs(k, at, entry, maxpc) && IndexIs(bucket.idx, at, entry, maxpc);
        FirstIsUnique(entry, maxpc, bucket.idx, k, at * 4096);
      }
    }
  }

  /** A distance cut to one byte points at the function it was measured to or at one before it. */
  lemma SubbucketSafe(entry: seq<nat>, maxpc: nat, bucket: Bucket, at: nat, n: nat)
    requires Entries(entry, maxpc) && BucketIs(bucket, at, entry, maxpc, |entry|) && n < 16
    ensures Safe(bucket, at, n, entry)
  {
    assert SubIs(bucket, at, n, entry, maxpc, |entry|);
    var x := at * 4096 + n * 256;
    if x <= maxpc {
      var k := SomeReaches(entry, maxpc, x);
      assert bucket.idx <= k;
      assert bucket.idx + (k - bucket.idx) % 256 <= k;
    }
  }

  lemma IndexSafe(buckets: seq<Bucket>, entry: seq<nat>, maxpc: nat)
    requires Entries(entry, maxpc) && IndexUpTo(buckets, entry, maxpc, |entry|)
    ensures SafeIndex(buckets, entry)
  {
    hide Safe, Entries;
    forall at | 0 <= at < |buckets| ensures SafeBucket(buckets[at], at, entry) {
      forall n | 0 <= n < 16 ensures Safe(buckets[at], at, n, entry) {
        SubbucketSafe(entry, maxpc, buckets[at], at, n);
      }
    }
  }

  lemma SomeReaches(entry: seq<nat>, maxpc: nat, x: nat) returns (k: nat)
    requires Entries(entry, maxpc) && x <= maxpc
    ensures FirstTo(entry, maxpc, k, x)
  {
    k := 0;
    while EndOf(entry, maxpc, k) < x
      invariant k < |entry| && (k == 0 || entry[k] < x)
      decreases |entry| - k
    {
      k := k + 1;
    }
  }

  // ----- the runtime's lookup -----

  lemma FtabSorted(entry: seq<nat>, maxpc: nat)
    requires Entries(entry, maxpc)
    ensures forall i, j :: 0 <= i <= j < |entry| + 2 ==> Ftab(entry, maxpc)[i] <= Ftab(entry, maxpc)[j]
  {
  }

  /** The scan never starts behind the entry it looks for. */
  lemma StartIsLow(buckets: seq<Bucket>, entry: seq<nat>, maxpc: nat, pc: nat)
    requires Entries(entry, maxpc) && SafeIndex(buckets, entry) && |buckets| == maxpc / BUCKET_SIZE + 1
    requires pc < maxpc
    ensures pc / BUCKET_SIZE < |buckets| && |buckets[pc / BUCKET_SIZE].subbuckets| == NSUB
    ensures Start(buckets, pc) < |entry| + 1 && Ftab(entry, maxpc)[Start(buckets, pc)] <= pc
  {
    var at, n := pc / BUCKET_SIZE, pc % BUCKET_SIZE / SUB_SIZE;
    assert at <= maxpc / BUCKET_SIZE;
    assert SafeBucket(buckets[at], at, entry);
    assert Safe(buckets[at], at, n, entry);
    assert at * BUCKET_SIZE + n * SUB_SIZE <= pc;
  }

  /** The `findfunc` rule of module.go: start at bucket plus subbucket and scan forward.  The scan
      ends at the last entry at or below `pc`, the one a scan of the whole table would find. */
  method Find(buckets: seq<Bucket>, entry: seq<nat>, maxpc: nat, pc: nat) returns (idx: nat)
    requires Entries(entry, maxpc) && SafeIndex(buckets, entry) && |buckets| == maxpc / BUCKET_SIZE + 1
    requires pc < maxpc
    ensures IsLastAtOrBelow(Ftab(entry, maxpc), pc, idx)
    ensures 1 <= idx <= |entry| && entry[idx - 1] <= pc < EndOf(entry, maxpc, idx - 1)
  {
    StartIsLow(buckets, entry, maxpc, pc);
    FtabSorted(entry, maxpc);
    var ftab := Ftab(entry, maxpc);
    idx := Start(buckets, pc);
    while ftab[idx + 1] <= pc
      invariant idx < |entry| + 1 && ftab[idx] <= pc
      decreases |entry| - idx
    {
      idx := idx + 1;
    }
  }

  /** `buildModule` and `findfunc` together: every pc of the text is found. */
  method BuildAndFind(entry: seq<nat>, maxpc: nat, pc: nat) returns (idx: nat)
    requires Entries(entry, maxpc) && pc < maxpc
    ensures IsLastAtOrBelow(Ftab(entry, maxpc), pc, idx)
    ensures 1 <= idx <= |entry| && entry[idx - 1] <= pc < EndOf(entry, maxpc, idx - 1)
  {
    var buckets := BuildBuckets(entry, maxpc);
    idx := Find(buckets, entry, maxpc, pc);
  }

  /** The entry that the index leads to is the only one a linear scan can stop at. */
  lemma LinearScanAgrees(ftab: seq<nat>, pc: nat, k: nat, k': nat)
    requires IsLastAtOrBelow(ftab, pc, k) && IsLastAtOrBelow(ftab, pc, k')
    ensures k == k'
  {
  }
}
