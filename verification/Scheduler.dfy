/** The leaf budget of the tree traversal. Instance h of the treehash array has to consume
    2^h leaves within 2^(h+1) signatures; every signature pays for H/2 - 1 leaves, given
    to the running instance with the least (lowest node height, index). The accounting
    below shows that no instance ever misses its deadline. */
module Scheduler {
  import opened Numbers
  import opened MerkleTree

  /** Leaves paid for by one signature, for a tree of height H. */
  function UpdateIter(H: nat): nat
    requires H >= 2
  {
    H / 2 - 1
  }

  /** done[j] counts the leaves instance j has consumed since it was last started. */
  ghost predicate Progress(done: seq<nat>, H: nat) {
    H >= 4 && H % 2 == 0 && |done| == H - 2 && forall j :: 0 <= j < |done| ==> done[j] <= Pow2(j)
  }

  predicate Running(done: seq<nat>, j: nat)
    requires j < |done|
  {
    done[j] < Pow2(j)
  }

  /** m comes first in the service order (lowest node height, index). */
  ghost predicate First(done: seq<nat>, m: nat) {
    && m < |done| && Running(done, m)
    && forall j :: 0 <= j < |done| && Running(done, j) ==>
         Log2(done[m]) < Log2(done[j]) || (Log2(done[m]) == Log2(done[j]) && m <= j)
  }

  /** What instance j may have cost since instance h was started, r signatures ago, while
      h was still running: all rounds of a smaller instance, the present one included, but
      no more than 2^(h-1) leaves of a larger one. */
  function Share(done: seq<nat>, h: nat, r: nat, j: nat): nat
    requires j < |done|
  {
    if j < h then Times(r / Pow2(j + 1), Pow2(j)) + done[j]
    else if j == h then done[j]
    else if done[j] <= Pow2(h) / 2 then done[j] else Pow2(h) / 2
  }

  function Work(done: seq<nat>, h: nat, r: nat, k: nat): nat
    requires k <= |done|
  {
    if k == 0 then 0 else Work(done, h, r, k - 1) + Share(done, h, r, k - 1)
  }

  /** The leaves paid for since h was started went into work that its Share accounts for.
      n counts the signatures so far, slots the leaves already paid in the present one. */
  ghost predicate OnTime(done: seq<nat>, H: nat, n: nat, slots: nat, h: nat)
    requires H >= 2 && h < |done|
  {
    Running(done, h) ==>
      Times(UpdateIter(H), n % Pow2(h + 1)) + slots <= Work(done, h, n % Pow2(h + 1), |done|)
  }

  ghost predicate Budgeted(done: seq<nat>, H: nat, n: nat, slots: nat)
    requires H >= 2
  {
    forall h :: 0 <= h < |done| ==> OnTime(done, H, n, slots, h)
  }

  // ---- one leaf ----

  lemma {:induction false} WorkAfterServing(done: seq<nat>, h: nat, r: nat, m: nat, k: nat)
    requires m < |done| && k <= |done|
    requires m > h ==> done[m] < Pow2(h) / 2
    ensures Work(done[m := done[m] + 1], h, r, k) == Work(done, h, r, k) + if m < k then 1 else 0
  {
    if k > 0 {
      WorkAfterServing(done, h, r, m, k - 1);
    }
  }

  /** An instance above h is only served before h while its own lowest node is lower. */
  lemma ServedAboveIsLow(done: seq<nat>, H: nat, m: nat, h: nat)
    requires Progress(done, H) && First(done, m) && h < m && Running(done, h)
    ensures done[m] < Pow2(h) / 2
  {
    Log2Below(done[h], h);
    if h > 0 {
      Log2Small(done[m], h - 1);
    }
  }

  /** Serving the first instance keeps every deadline in reach. */
  lemma ServeKeepsBudget(done: seq<nat>, H: nat, n: nat, slots: nat, m: nat)
    requires Progress(done, H) && First(done, m) && Budgeted(done, H, n, slots)
    ensures Progress(done[m := done[m] + 1], H)
    ensures Budgeted(done[m := done[m] + 1], H, n, slots + 1)
  {
    var done' := done[m := done[m] + 1];
    forall h {:trigger OnTime(done', H, n, slots + 1, h)} | 0 <= h < |done'|
      ensures OnTime(done', H, n, slots + 1, h)
    {
      if Running(done', h) {
        assert OnTime(done, H, n, slots, h);
        if h < m {
          ServedAboveIsLow(done, H, m, h);
        }
        WorkAfterServing(done, h, n % Pow2(h + 1), m, |done|);
      }
    }
  }

  // ---- the deadline ----

  /** q whole windows of 2p out of fewer than 2pc signatures, and one more round of p. */
  lemma RoundsFit(r: nat, p: nat, c: nat, d: nat)
    requires p > 0 && r < c * (2 * p) && d <= p
    ensures Times(r / (2 * p), p) + d <= c * p
  {
    var q := r / (2 * p);
    assert q * (2 * p) <= r;
    if q >= c {
      MulMono(c, q, 2 * p);
    }
    MulMono(q + 1, c, p);
    assert (q + 1) * p == q * p + p;
  }

  /** Within a window of h, a smaller instance costs no more than 2^h. */
  lemma ShareBelow(done: seq<nat>, H: nat, h: nat, r: nat, j: nat)
    requires Progress(done, H) && j < h && j < |done| && r < Pow2(h + 1)
    ensures Share(done, h, r, j) <= Pow2(h)
  {
    Pow2Add(h - j, j + 1);
    Pow2Add(h - j, j);
    RoundsFit(r, Pow2(j), Pow2(h - j), done[j]);
  }

  function Bound(p: nat, h: nat, k: nat): int {
    if k <= h then k * p else (h + 1) * p - 1 + (k - h - 1) * (p / 2)
  }

  lemma BoundSteps(p: nat, h: nat, k: nat)
    requires p > 0
    ensures Bound(p, h, 0) == 0
    ensures Bound(p, h, k + 1) == Bound(p, h, k) + if k < h then p else if k == h then p - 1 else p / 2
  {
    assert (k + 1) * p == k * p + p;
    assert (h + 1) * p == h * p + p;
    assert (k - h) * (p / 2) == (k - h - 1) * (p / 2) + p / 2;
  }

  lemma {:induction false} WorkBound(done: seq<nat>, H: nat, h: nat, r: nat, k: nat)
    requires Progress(done, H) && h < |done| && k <= |done| && r < Pow2(h + 1) && Running(done, h)
    ensures Work(done, h, r, k) <= Bound(Pow2(h), h, k)
  {
    BoundSteps(Pow2(h), h, if k > 0 then k - 1 else 0);
    if k > 0 {
      WorkBound(done, H, h, r, k - 1);
      if k - 1 < h {
        ShareBelow(done, H, h, r, k - 1);
      }
    }
  }

  /** The capacity of a window exceeds the work that can run in it before h is finished. */
  lemma CapacityExceedsWork(H: nat, h: nat, p: nat)
    requires H >= 4 && H % 2 == 0 && h <= H - 3 && p >= 1
    ensures Bound(p, h, H - 2) < Times(UpdateIter(H), 2 * p - 1) + UpdateIter(H)
  {
    var u := H / 2 - 1;
    var c := H - 3 - h;
    assert h + 1 + c == 2 * u;
    assert u * (2 * p - 1) + u == (2 * u) * p;
    assert (2 * u) * p == (h + 1) * p + c * p;
    MulMono(p / 2, p, c);
  }

  /** Instance h is finished when its window of 2^(h+1) signatures ends. */
  lemma Deadline(done: seq<nat>, H: nat, n: nat, h: nat)
    requires Progress(done, H) && h < |done|
    requires Budgeted(done, H, n, UpdateIter(H))
    requires (n + 1) % Pow2(h + 1) == 0
    ensures done[h] == Pow2(h)
  {
    if Running(done, h) {
      LastOfWindow(n, Pow2(h + 1));
      assert OnTime(done, H, n, UpdateIter(H), h);
      CapacityExceedsWork(H, h, Pow2(h));
      WorkBound(done, H, h, n % Pow2(h + 1), |done|);
    }
  }

  // ---- from one signature to the next ----

  /** The window of instance j ends with signature n. */
  predicate Due(n: nat, j: nat) { n % Pow2(j + 1) == 0 }

  /** Signature n + 1 restarts exactly the instances whose window ends there, except those
      for which no leaves are left. */
  ghost predicate Restarted(done: seq<nat>, done': seq<nat>, n: nat) {
    && |done'| == |done|
    && forall j :: 0 <= j < |done| ==>
         done'[j] == done[j] || (Due(n + 1, j) && (done'[j] == 0 || done'[j] == Pow2(j)))
  }

  lemma DividesBelow(n: nat, j: nat, h: nat)
    requires j <= h
    ensures (n % Pow2(h)) % Pow2(j) == n % Pow2(j)
  {
    Pow2Add(h - j, j);
    ModOfMod(n, Pow2(h - j), Pow2(j));
  }

  lemma RoundsGrow(r: nat, p: nat, d: nat, d': nat)
    requires p > 0 && d <= p
    requires (r + 1) % (2 * p) != 0 ==> d' == d
    ensures Times(r / (2 * p), p) + d <= Times((r + 1) / (2 * p), p) + d'
  {
    var q := r / (2 * p);
    QuotientSteps(r, 2 * p);
    assert (q + 1) * p == q * p + p;
  }

  lemma ShareGrowsBelow(done: seq<nat>, done': seq<nat>, H: nat, n: nat, h: nat, r: nat, j: nat)
    requires Progress(done, H) && j < h < |done| && Restarted(done, done', n)
    requires r + 1 == (n + 1) % Pow2(h + 1)
    ensures Share(done, h, r, j) <= Share(done', h, r + 1, j)
  {
    DividesBelow(n + 1, j + 1, h + 1);
    RoundsGrow(r, Pow2(j), done[j], done'[j]);
  }

  lemma DividesAbove(n: nat, h: nat, j: nat)
    requires h <= j && n % Pow2(j) == 0
    ensures n % Pow2(h) == 0
  {
    DividesBelow(n, h, j);
    DivModUnique(0, Pow2(h), 0, 0);
  }

  lemma NotRestartedAbove(done: seq<nat>, done': seq<nat>, n: nat, h: nat, j: nat)
    requires h <= j < |done| && Restarted(done, done', n)
    requires (n + 1) % Pow2(h + 1) != 0
    ensures done'[j] == done[j]
  {
    if (n + 1) % Pow2(j + 1) == 0 {
      DividesAbove(n + 1, h + 1, j + 1);
    }
  }

  lemma ShareGrows(done: seq<nat>, done': seq<nat>, H: nat, n: nat, h: nat, r: nat, j: nat)
    requires Progress(done, H) && h < |done| && j < |done| && Restarted(done, done', n)
    requires r + 1 == (n + 1) % Pow2(h + 1)
    ensures Share(done, h, r, j) <= Share(done', h, r + 1, j)
  {
    if j < h {
      ShareGrowsBelow(done, done', H, n, h, r, j);
    } else {
      NotRestartedAbove(done, done', n, h, j);
    }
  }

  lemma {:induction false} WorkGrows(done: seq<nat>, done': seq<nat>, H: nat, n: nat, h: nat, r: nat, k: nat)
    requires Progress(done, H) && h < |done| && k <= |done| && Restarted(done, done', n)
    requires r + 1 == (n + 1) % Pow2(h + 1)
    ensures Work(done, h, r, k) <= Work(done', h, r + 1, k)
  {
    if k > 0 {
      WorkGrows(done, done', H, n, h, r, k - 1);
      ShareGrows(done, done', H, n, h, r, k - 1);
    }
  }

  lemma OnTimeAfterRestart(done: seq<nat>, done': seq<nat>, H: nat, n: nat, h: nat)
    requires Progress(done, H) && h < |done| && OnTime(done, H, n, UpdateIter(H), h) && Restarted(done, done', n)
    ensures OnTime(done', H, n + 1, 0, h)
  {
    var u, r := UpdateIter(H), n % Pow2(h + 1);
    TimesSteps(u, r);
    TimesSteps(u, 0);
    if (n + 1) % Pow2(h + 1) != 0 {
      NextInWindow(n, Pow2(h + 1));
      WorkGrows(done, done', H, n, h, r, |done|);
    }
  }

  /** A full signature's worth of leaves and the restarts that follow keep the budget. */
  lemma RestartKeepsBudget(done: seq<nat>, done': seq<nat>, H: nat, n: nat)
    requires Progress(done, H) && Budgeted(done, H, n, UpdateIter(H)) && Restarted(done, done', n)
    ensures Progress(done', H)
    ensures Budgeted(done', H, n + 1, 0)
  {
    forall j {:trigger done'[j]} | 0 <= j < |done'|
      ensures done'[j] <= Pow2(j)
    {
      assert done[j] <= Pow2(j);
      assert done'[j] == done[j] || done'[j] == 0 || done'[j] == Pow2(j);
    }
    forall h {:trigger OnTime(done', H, n + 1, 0, h)} | 0 <= h < |done'|
      ensures OnTime(done', H, n + 1, 0, h)
    {
      assert OnTime(done, H, n, UpdateIter(H), h);
      OnTimeAfterRestart(done, done', H, n, h);
    }
  }
}
