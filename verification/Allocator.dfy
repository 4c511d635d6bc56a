/**
 The cluster allocator on table values: what create_chain and remove_chain compute,
 and what every run of them keeps true of the chains in the table.
 */
module Allocator {

  const UNKNOWN := 0xFFFF_FFFF   // the free cluster count is not known

  /** The table with the allocation hints that travel with it. */
  datatype Table = Table(
    fat: seq<nat>,   // entry of every cluster number, 0 and 1 included
    eoc: nat,        // the end mark put_fat stores
    last: nat,       // last allocated cluster
    free: nat,       // number of free clusters or UNKNOWN
    fsi: bool)       // the hints must be written back

  predicate TableOk(t: Table) {
    3 <= |t.fat| <= t.eoc
  }

  predicate IsCluster(fat: seq<nat>, c: nat) {
    2 <= c < |fat|
  }

  // ---------------------------------------------------------------- counting

  /** The number of free clusters below n. */
  function FreeBelow(fat: seq<nat>, n: nat): nat
    requires n <= |fat|
  {
    if n <= 2 then 0 else FreeBelow(fat, n - 1) + if fat[n - 1] == 0 then 1 else 0
  }

  function Free(fat: seq<nat>): nat {
    FreeBelow(fat, |fat|)
  }

  /** The count is that of the clusters whose entry is 0. */
  lemma {:induction false} FreeCounts(fat: seq<nat>, n: nat)
    requires n <= |fat|
    ensures FreeBelow(fat, n) == |set c | 2 <= c < n && fat[c] == 0|
  {
    var s := set c | 2 <= c < n && fat[c] == 0;
    if n <= 2 {
      assert s == {};
    } else {
      FreeCounts(fat, n - 1);
      var s0 := set c | 2 <= c < n - 1 && fat[c] == 0;
      assert s == if fat[n - 1] == 0 then s0 + {n - 1} else s0;
    }
  }

  lemma {:induction false} FreeBelowBound(fat: seq<nat>, n: nat)
    requires 2 <= n <= |fat|
    ensures FreeBelow(fat, n) <= n - 2
    ensures (exists c | 2 <= c < n :: fat[c] == 0) ==> FreeBelow(fat, n) > 0
    ensures (exists c | 2 <= c < n :: fat[c] != 0) ==> FreeBelow(fat, n) < n - 2
  {
    if n > 2 {
      FreeBelowBound(fat, n - 1);
    }
  }

  lemma {:induction false} FreeBelowUpdate(fat: seq<nat>, n: nat, c: nat, v: nat)
    requires n <= |fat| && IsCluster(fat, c)
    ensures FreeBelow(fat[c := v], n)
         == FreeBelow(fat, n) + (if c < n && v == 0 then 1 else 0) - (if c < n && fat[c] == 0 then 1 else 0)
  {
    if n > 2 {
      FreeBelowUpdate(fat, n - 1, c, v);
    }
  }

  /** The number of zero entries below n, those of the reserved numbers 0 and 1 included. */
  function ZerosBelow(fat: seq<nat>, n: nat): nat
    requires n <= |fat|
  {
    if n == 0 then 0 else ZerosBelow(fat, n - 1) + if fat[n - 1] == 0 then 1 else 0
  }

  /** A scan that starts at entry 0 counts the free clusters exactly when entries 0 and 1 are nonzero. */
  lemma {:induction false} ZerosCountFree(fat: seq<nat>, n: nat)
    requires 2 <= n <= |fat|
    ensures ZerosBelow(fat, n) == FreeBelow(fat, n) <==> fat[0] != 0 && fat[1] != 0
    ensures ZerosBelow(fat, n) == FreeBelow(fat, n) + (if fat[0] == 0 then 1 else 0) + (if fat[1] == 0 then 1 else 0)
  {
    if n > 2 {
      ZerosCountFree(fat, n - 1);
    } else {
      assert ZerosBelow(fat, 2) == ZerosBelow(fat, 1) + if fat[1] == 0 then 1 else 0;
      assert ZerosBelow(fat, 1) == ZerosBelow(fat, 0) + if fat[0] == 0 then 1 else 0;
    }
  }

  // ---------------------------------------------------------------- create_chain

  /** The scan of create_chain with start scl, ncl being the cluster looked at last. */
  function Scan(fat: seq<nat>, scl: nat, ncl: nat): nat
    requires |fat| >= 3 && 1 <= scl < |fat| && 1 <= ncl < |fat|
    decreases if ncl >= scl then |fat| - ncl + scl else scl - ncl
  {
    if ncl + 1 >= |fat| && scl < 2 then 0
    else
      var nx := if ncl + 1 >= |fat| then 2 else ncl + 1;
      if fat[nx] == 0 then nx
      else if fat[nx] == 1 then 1
      else if nx == scl then 0
      else Scan(fat, scl, nx)
  }

  /** c is looked at before r by a scan that starts after scl. */
  predicate Before(scl: nat, c: nat, r: nat) {
    if scl < r then scl < c < r else scl < c || c < r
  }

  /** The scan takes the first free cluster after its start, in cyclic order. */
  lemma {:induction false} ScanFindsFirst(fat: seq<nat>, scl: nat, ncl: nat)
    requires |fat| >= 3 && 1 <= scl < |fat| && 1 <= ncl < |fat|
    requires forall c: nat | IsCluster(fat, c) && Passed(scl, ncl, c) :: fat[c] >= 2
    ensures var r := Scan(fat, scl, ncl);
            if r == 0 then forall c: nat | IsCluster(fat, c) :: fat[c] >= 2
            else if r == 1 then exists c: nat | IsCluster(fat, c) :: fat[c] == 1
            else IsCluster(fat, r) && fat[r] == 0 && forall c: nat | IsCluster(fat, c) && Before(scl, c, r) ::
              fat[c] >= 2
    decreases if ncl >= scl then |fat| - ncl + scl else scl - ncl
  {
    if !(ncl + 1 >= |fat| && scl < 2) {
      var nx := if ncl + 1 >= |fat| then 2 else ncl + 1;
      if fat[nx] >= 2 && nx != scl {
        ScanFindsFirst(fat, scl, nx);
      }
    }
  }

  /** The clusters looked at when the scan stands at ncl. */
  predicate Passed(scl: nat, ncl: nat, c: nat) {
    if scl <= ncl then scl < c <= ncl else scl < c || c <= ncl
  }

  /** Where a scan starts. */
  function ScanStart(t: Table, clst: nat): nat {
    if clst != 0 then clst else if t.last == 0 || t.last >= |t.fat| then 1 else t.last
  }

  function CountDown(free: nat): nat {
    if free == UNKNOWN then UNKNOWN else (free - 1) % 0x1_0000_0000
  }

  function CountUp(free: nat): nat {
    if free == UNKNOWN then UNKNOWN else (free + 1) % 0x1_0000_0000
  }

  /** The table after ncl is taken and linked behind clst (0: it starts a chain). */
  function Take(t: Table, clst: nat, ncl: nat): Table
    requires clst < |t.fat| && ncl < |t.fat|
  {
    var fat1 := t.fat[ncl := t.eoc];
    t.(fat := if clst != 0 then fat1[clst := ncl] else fat1, last := ncl,
       free := CountDown(t.free), fsi := t.fsi || t.free != UNKNOWN)
  }

  /** create_chain: the new table and 0 (no free cluster), 1 (bad table) or the next cluster. */
  function CreateChain(t: Table, clst: nat): (Table, nat)
    requires TableOk(t)
  {
    if clst != 0 && (!IsCluster(t.fat, clst) || t.fat[clst] < 2) then (t, 1)
    else if clst != 0 && t.fat[clst] < |t.fat| then (t, t.fat[clst])
    else
      var r := Scan(t.fat, ScanStart(t, clst), ScanStart(t, clst));
      if r < 2 || r >= |t.fat| then (t, r) else (Take(t, clst, r), r)
  }

  /**
   What create_chain does where there is no link to follow: it takes the first free cluster behind the end of
   the chain, or behind the cluster taken last for a new chain, going round at the end of the table; marks it
   the last of its chain, links it, and counts it.
  */
  lemma ClusterTaken(t: Table, clst: nat)
    requires TableOk(t) && t.free < 0x1_0000_0000
    requires clst == 0 || (2 <= clst < |t.fat| && t.fat[clst] >= |t.fat|)
    ensures var (t', r) := CreateChain(t, clst);
            if r >= 2 then
              var from := if clst != 0 then clst else if 0 < t.last < |t.fat| then t.last else 1;
              && r < |t.fat| && t.fat[r] == 0
              && (forall c: nat | 2 <= c < |t.fat| && t.fat[c] == 0 && c != r ::
                    if from < r then c <= from || r < c else r < c <= from)
              && t'.fat == (if clst == 0 then t.fat[r := t.eoc] else t.fat[r := t.eoc][clst := r])
              && t'.last == r && t'.eoc == t.eoc && (t'.fsi <==> t.fsi || t.free != 0xFFFF_FFFF)
              && t'.free == (if t.free == 0xFFFF_FFFF || t.free == 0 then 0xFFFF_FFFF else t.free - 1)
            else
              t' == t && (r == 0 ==> forall c: nat | 2 <= c < |t.fat| :: t.fat[c] != 0)
  {
    hide Scan;
    ScanFindsFirst(t.fat, ScanStart(t, clst), ScanStart(t, clst));
  }

  // ---------------------------------------------------------------- remove_chain

  /** remove_chain from a number that may be past the table: the new table and whether it met no entry 1. */
  function Release(t: Table, c: nat): (r: (Table, bool))
    requires c >= 2
    ensures |r.0.fat| == |t.fat| && forall d | 0 <= d < |t.fat| :: r.0.fat[d] == 0 || r.0.fat[d] == t.fat[d]
    decreases |t.fat| - Free(t.fat)
  {
    if c >= |t.fat| || t.fat[c] == 0 then (t, true)
    else if t.fat[c] == 1 then (t, false)
    else
      FreeBelowUpdate(t.fat, |t.fat|, c, 0);
      FreeBelowBound(t.fat, |t.fat|);
      Release(t.(fat := t.fat[c := 0], free := CountUp(t.free), fsi := t.fsi || t.free != UNKNOWN), t.fat[c])
  }

  function RemoveChain(t: Table, clst: nat): (Table, bool) {
    if IsCluster(t.fat, clst) then Release(t, clst) else (t, false)
  }

  /** A walk along the links, every cluster of it linked further. */
  predicate Walk(fat: seq<nat>, p: seq<nat>) {
    && |p| > 0
    && (forall i | 0 <= i < |p| :: IsCluster(fat, p[i]) && fat[p[i]] >= 2)
    && (forall i | 0 < i < |p| :: p[i] == fat[p[i - 1]])
  }

  ghost predicate Reaches(fat: seq<nat>, c: nat, d: nat) {
    exists p :: Walk(fat, p) && p[0] == c && p[|p| - 1] == d
  }

  /** On any table, cyclic ones included, exactly the clusters reachable from c are set free. */
  lemma {:induction false} ReleaseClearsReachable(t: Table, c: nat, d: nat)
    requires c >= 2 && d < |t.fat|
    ensures Release(t, c).0.fat[d] == if Reaches(t.fat, c, d) then 0 else t.fat[d]
    decreases |t.fat| - Free(t.fat)
  {
    if c < |t.fat| && t.fat[c] >= 2 {
      FreeBelowUpdate(t.fat, |t.fat|, c, 0);
      FreeBelowBound(t.fat, |t.fat|);
      var t1 := t.(fat := t.fat[c := 0], free := CountUp(t.free), fsi := t.fsi || t.free != UNKNOWN);
      ReleaseClearsReachable(t1, t.fat[c], d);
      ReachesUnfold(t.fat, c, d);
    }
  }

  /** Reachability from c, with c cut out of the table. */
  lemma ReachesUnfold(fat: seq<nat>, c: nat, d: nat)
    requires IsCluster(fat, c) && fat[c] >= 2
    ensures Reaches(fat, c, d) <==> d == c || Reaches(fat[c := 0], fat[c], d)
  {
    if Reaches(fat, c, d) && d != c {
      var p :| Walk(fat, p) && p[0] == c && p[|p| - 1] == d;
      var q := AvoidStart(fat, c, p);
    }
    if d == c {
      assert Walk(fat, [c]);
    } else if Reaches(fat[c := 0], fat[c], d) {
      var q :| Walk(fat[c := 0], q) && q[0] == fat[c] && q[|q| - 1] == d;
      assert Walk(fat, [c] + q);
    }
  }

  /** A walk from c to another cluster, from its last visit of c on. */
  lemma {:induction false} AvoidStart(fat: seq<nat>, c: nat, p: seq<nat>) returns (q: seq<nat>)
    requires Walk(fat, p) && IsCluster(fat, c) && p[0] == c && p[|p| - 1] != c
    ensures Walk(fat[c := 0], q) && q[0] == fat[c] && q[|q| - 1] == p[|p| - 1]
    decreases |p|
  {
    q := p[1..];
    if c in q {
      var i :| 0 <= i < |q| && q[i] == c;
      q := AvoidStart(fat, c, q[i..]);
    }
  }

  /**
   The recorded count follows a release up to 0xFFFFFFFE: it stays known exactly when
   the count and the clusters set free stay below the value for "unknown".
   */
  lemma {:induction false} ReleaseCounts(t: Table, c: nat)
    requires c >= 2 && t.free < UNKNOWN
    ensures var t' := Release(t, c).0;
            var freed := Free(t'.fat) - Free(t.fat);
            freed >= 0 && t'.free == if t.free + freed < UNKNOWN then t.free + freed else UNKNOWN
    decreases |t.fat| - Free(t.fat)
  {
    if c < |t.fat| && t.fat[c] >= 2 {
      FreeBelowUpdate(t.fat, |t.fat|, c, 0);
      FreeBelowBound(t.fat, |t.fat|);
      var t1 := t.(fat := t.fat[c := 0], free := CountUp(t.free), fsi := t.fsi || t.free != UNKNOWN);
      if t1.free < UNKNOWN {
        ReleaseCounts(t1, t.fat[c]);
      } else {
        UnknownStays(t1, t.fat[c]);
      }
    }
  }

  /** A release leaves an unknown count unknown, and sets clusters free all the same. */
  lemma {:induction false} UnknownStays(t: Table, c: nat)
    requires c >= 2 && t.free == UNKNOWN
    ensures Release(t, c).0.free == UNKNOWN && Free(Release(t, c).0.fat) >= Free(t.fat)
    decreases |t.fat| - Free(t.fat)
  {
    if c < |t.fat| && t.fat[c] >= 2 {
      FreeBelowUpdate(t.fat, |t.fat|, c, 0);
      FreeBelowBound(t.fat, |t.fat|);
      UnknownStays(t.(fat := t.fat[c := 0]), t.fat[c]);
    }
  }

  // ---------------------------------------------------------------- chains

  /** s is a cluster chain: every cluster links to the next and the last holds an end mark. */
  predicate Chain(fat: seq<nat>, s: seq<nat>) {
    && |s| > 0
    && (forall i | 0 <= i < |s| :: IsCluster(fat, s[i]))
    && (forall i | 0 <= i < |s| - 1 :: fat[s[i]] == s[i + 1])
    && fat[s[|s| - 1]] >= |fat|
  }

  /** Chains are acyclic. */
  lemma {:induction false} ChainDistinct(fat: seq<nat>, s: seq<nat>, i: nat, j: nat)
    requires Chain(fat, s) && i < j < |s|
    ensures s[i] != s[j]
    decreases |s| - j
  {
    assert fat[s[i]] == s[i + 1];
    if s[i] == s[j] && j + 1 < |s| {
      ChainDistinct(fat, s, i + 1, j + 1);
    }
  }

  predicate Distinct(s: seq<nat>) {
    forall i, j | 0 <= i < j < |s| :: s[i] != s[j]
  }

  lemma ChainIsDistinct(fat: seq<nat>, s: seq<nat>)
    requires Chain(fat, s)
    ensures Distinct(s)
  {
    forall i, j | 0 <= i < j < |s| ensures s[i] != s[j] {
      ChainDistinct(fat, s, i, j);
    }
  }

  /** Entries outside a chain do not matter to it. */
  lemma ChainFrame(fat: seq<nat>, fat': seq<nat>, s: seq<nat>)
    requires Chain(fat, s) && |fat'| == |fat| && forall c | c in s :: fat'[c] == fat[c]
    ensures Chain(fat', s)
  {
    forall i | 0 <= i < |s| ensures fat'[s[i]] == fat[s[i]] { assert s[i] in s; }
  }

  /** On a chain remove_chain frees exactly the clusters of the chain from its argument on. */
  lemma {:induction false} ReleaseChain(t: Table, s: seq<nat>)
    requires Chain(t.fat, s)
    ensures Release(t, s[0]).1
    ensures forall c | 0 <= c < |t.fat| :: Release(t, s[0]).0.fat[c] == if c in s then 0 else t.fat[c]
    decreases |s|
  {
    hide Chain, Free;
    HeadOfRest(t.fat, s);
    var t1 := t.(fat := t.fat[s[0] := 0], free := CountUp(t.free), fsi := t.fsi || t.free != UNKNOWN);
    if |s| > 1 {
      ReleaseChain(t1, s[1..]);
    }
    assert s == [s[0]] + s[1..];
  }

  /** A release leaves the other fields alone, but for the mark that the hints are to be written back. */
  lemma {:induction false} ReleaseFields(t: Table, c: nat)
    requires c >= 2
    ensures var t' := Release(t, c).0;
            && t'.eoc == t.eoc && t'.last == t.last
            && (t'.fsi <==> t.fsi || (c < |t.fat| && t.fat[c] >= 2 && t.free != 0xFFFF_FFFF))
    decreases |t.fat| - Free(t.fat)
  {
    if c < |t.fat| && t.fat[c] >= 2 {
      FreeBelowUpdate(t.fat, |t.fat|, c, 0);
      FreeBelowBound(t.fat, |t.fat|);
      ReleaseFields(t.(fat := t.fat[c := 0], free := CountUp(t.free), fsi := t.fsi || t.free != UNKNOWN), t.fat[c]);
    }
  }

  /** remove_chain on a chain: the new table, field by field. */
  lemma ChainReleased(t: Table, s: seq<nat>)
    requires Chain(t.fat, s) && t.free < 0x1_0000_0000
    ensures var (t', ok) := RemoveChain(t, s[0]);
            && ok && |t'.fat| == |t.fat| && (forall c | 0 <= c < |t.fat| :: t'.fat[c] == if c in s then 0 else t.fat[c])
            && t'.eoc == t.eoc && t'.last == t.last && (t'.fsi <==> t.fsi || t.free != 0xFFFF_FFFF)
            && t'.free == if t.free + |s| < 0xFFFF_FFFF then t.free + |s| else 0xFFFF_FFFF
  {
    HeadOfRest(t.fat, s);
    hide Chain, Release, Free;
    ReleaseChain(t, s);
    ReleaseFields(t, s[0]);
    if t.free < UNKNOWN {
      ReleaseCounts(t, s[0]);
      ChainIsDistinct(t.fat, s);
      forall c | c in s ensures IsCluster(t.fat, c) && t.fat[c] != 0 { EntryOfChain(t.fat, s, c); }
      ClearCounts(t.fat, Release(t, s[0]).0.fat, s);
    } else {
      UnknownStays(t, s[0]);
    }
  }

  /** The first cluster of a chain, and the rest of the chain without it. */
  lemma HeadOfRest(fat: seq<nat>, s: seq<nat>)
    requires Chain(fat, s)
    ensures |s| > 0 && IsCluster(fat, s[0]) && fat[s[0]] >= 2 && s[0] !in s[1..]
    ensures if |s| == 1 then fat[s[0]] >= |fat| else fat[s[0]] == s[1] && Chain(fat[s[0] := 0], s[1..])
  {
    ChainIsDistinct(fat, s);
    if |s| > 1 {
      assert fat[s[0]] == s[1];
      var r := s[1..];
      forall i | 0 <= i < |r| ensures fat[s[0] := 0][r[i]] == fat[r[i]] { assert r[i] == s[i + 1]; }
    }
  }

  /** An entry that no correct table holds: create_chain gives up on it. */
  ghost predicate HasOne(fat: seq<nat>) {
    exists c: nat :: IsCluster(fat, c) && fat[c] == 1
  }

  ghost predicate NoneFree(fat: seq<nat>) {
    forall c: nat | IsCluster(fat, c) :: fat[c] != 0
  }

  /** A chain and one more cluster, linked and marked as create_chain does. */
  lemma StretchedChain(t: Table, s: seq<nat>, r: nat)
    requires TableOk(t) && Chain(t.fat, s) && IsCluster(t.fat, r) && t.fat[r] == 0
    ensures Chain(Take(t, s[|s| - 1], r).fat, s + [r]) && r !in s
  {
    var fat' := Take(t, s[|s| - 1], r).fat;
    var s' := s + [r];
    ChainIsDistinct(t.fat, s);
    forall i | 0 <= i < |s| ensures s[i] != r && fat'[s[i]] == s'[i + 1] {
      EntryOfChain(t.fat, s, s[i]);
    }
  }

  lemma EntryOfChain(fat: seq<nat>, s: seq<nat>, c: nat)
    requires Chain(fat, s) && c in s
    ensures IsCluster(fat, c) && fat[c] >= 2
  {
    var i :| 0 <= i < |s| && s[i] == c;
    if i < |s| - 1 {
      assert fat[s[i]] == s[i + 1];
    }
  }

  /** create_chain on cluster j of a chain: it follows the chain, or stretches it at its end. */
  lemma ExtendOutcome(t: Table, s: seq<nat>, j: nat)
    requires TableOk(t) && Chain(t.fat, s) && j < |s|
    ensures var (t', r) := CreateChain(t, s[j]);
            if j + 1 < |s| then t' == t && r == s[j + 1]
            else if r == 0 then t' == t && NoneFree(t.fat)
            else if r == 1 then t' == t && HasOne(t.fat)
            else
              && IsCluster(t.fat, r) && t.fat[r] == 0 && r !in s
              && t' == Take(t, s[j], r) && Chain(t'.fat, s + [r])
  {
    EntryOfChain(t.fat, s, s[j]);
    if j + 1 < |s| {
      assert t.fat[s[j]] == s[j + 1];
    } else {
      ScanFindsFirst(t.fat, s[j], s[j]);
      var r := CreateChain(t, s[j]).1;
      if r >= 2 {
        StretchedChain(t, s, r);
      }
    }
  }

  /** create_chain(0): a new chain of one cluster. */
  lemma NewOutcome(t: Table)
    requires TableOk(t)
    ensures var (t', r) := CreateChain(t, 0);
            if r == 0 then t' == t && NoneFree(t.fat)
            else if r == 1 then t' == t && HasOne(t.fat)
            else IsCluster(t.fat, r) && t.fat[r] == 0 && t' == Take(t, 0, r) && Chain(t'.fat, [r])
  {
    ScanFindsFirst(t.fat, ScanStart(t, 0), ScanStart(t, 0));
  }

  // ---------------------------------------------------------------- whole volumes

  ghost predicate Owned(chains: seq<seq<nat>>, c: nat) {
    exists i :: 0 <= i < |chains| && c in chains[i]
  }

  predicate Disjoint(a: seq<nat>, b: seq<nat>) {
    forall c | c in a :: c !in b
  }

  ghost predicate Covered(fat: seq<nat>, chains: seq<seq<nat>>) {
    forall c: nat | IsCluster(fat, c) && fat[c] != 0 :: Owned(chains, c)
  }

  /** The table holds these chains and nothing else: no cross link, no leak. */
  ghost predicate WellFormed(fat: seq<nat>, chains: seq<seq<nat>>) {
    && (forall i | 0 <= i < |chains| :: Chain(fat, chains[i]))
    && (forall i, j | 0 <= i < j < |chains| :: Disjoint(chains[i], chains[j]))
    && Covered(fat, chains)
  }

  // ---------------------------------------------------------------- volumes of files that may be empty

  /** The clusters of the files, none for an empty one, are chains, apart, and all that is in the table. */
  ghost predicate Partition(fat: seq<nat>, lists: seq<seq<nat>>) {
    && (forall i | 0 <= i < |lists| :: lists[i] == [] || Chain(fat, lists[i]))
    && (forall i, j | 0 <= i < j < |lists| :: Disjoint(lists[i], lists[j]))
    && Covered(fat, lists)
  }

  function NonEmpty(lists: seq<seq<nat>>): seq<seq<nat>> {
    if lists == [] then []
    else if lists[|lists| - 1] == [] then NonEmpty(lists[..|lists| - 1])
    else NonEmpty(lists[..|lists| - 1]) + [lists[|lists| - 1]]
  }

  lemma {:induction false} NonEmptyHas(lists: seq<seq<nat>>, s: seq<nat>)
    ensures s in NonEmpty(lists) <==> s in lists && s != []
  {
    if lists != [] {
      NonEmptyHas(lists[..|lists| - 1], s);
      assert lists == lists[..|lists| - 1] + [lists[|lists| - 1]];
    }
  }

  lemma {:induction false} NonEmptyApart(lists: seq<seq<nat>>)
    requires forall i, j | 0 <= i < j < |lists| :: Disjoint(lists[i], lists[j])
    ensures var l := NonEmpty(lists); forall i, j | 0 <= i < j < |l| :: Disjoint(l[i], l[j])
  {
    if lists != [] {
      var n := |lists| - 1;
      NonEmptyApart(lists[..n]);
      var l := NonEmpty(lists[..n]);
      forall i | 0 <= i < |l| ensures Disjoint(l[i], lists[n]) {
        NonEmptyHas(lists[..n], l[i]);
        assert l[i] in lists[..n];
      }
    }
  }

  /** Without the empty ones the lists are those of a well-formed volume. */
  lemma PartitionIsWellFormed(fat: seq<nat>, lists: seq<seq<nat>>)
    requires Partition(fat, lists)
    ensures WellFormed(fat, NonEmpty(lists))
  {
    var l := NonEmpty(lists);
    NonEmptyApart(lists);
    forall i | 0 <= i < |l| ensures Chain(fat, l[i]) { NonEmptyHas(lists, l[i]); }
    forall c: nat | IsCluster(fat, c) && fat[c] != 0 ensures Owned(l, c) {
      var i :| 0 <= i < |lists| && c in lists[i];
      NonEmptyHas(lists, lists[i]);
    }
  }

  /** What a caller of the allocator does. */
  datatype Op =
    | NewChain              // create_chain(0)
    | Extend(i: nat, j: nat)  // create_chain on cluster j of chain i: follow it, or stretch it at its end
    | Delete(i: nat)        // remove_chain of all of chain i
    | Cut(i: nat, j: nat)   // f_truncate after cluster j of chain i
    | Hint(h: nat)          // a new start point for the next scan

  /** A volume: its table and the chains in it. */
  datatype State = State(t: Table, chains: seq<seq<nat>>)

  predicate Enabled(s: State, op: Op) {
    match op
    case NewChain => true
    case Extend(i, j) => i < |s.chains| && j < |s.chains[i]|
    case Delete(i) => i < |s.chains| && |s.chains[i]| > 0
    case Cut(i, j) => i < |s.chains| && j < |s.chains[i]|
    case Hint(h) => true
  }

  /** The table after f_truncate behind cluster c: its successors are set free. */
  function CutAfter(t: Table, c: nat): Table
    requires IsCluster(t.fat, c)
  {
    var ncl := t.fat[c];
    if ncl < |t.fat| then RemoveChain(t.(fat := t.fat[c := t.eoc]), ncl).0 else t
  }

  function Step(s: State, op: Op): State
    requires TableOk(s.t) && Enabled(s, op)
    requires op.Cut? ==> IsCluster(s.t.fat, s.chains[op.i][op.j])
  {
    match op
    case NewChain =>
      var (t, r) := CreateChain(s.t, 0);
      State(t, if r < 2 then s.chains else s.chains + [[r]])
    case Extend(i, j) =>
      var (t, r) := CreateChain(s.t, s.chains[i][j]);
      State(t, if r < 2 || j + 1 < |s.chains[i]| then s.chains else s.chains[i := s.chains[i] + [r]])
    case Delete(i) => State(RemoveChain(s.t, s.chains[i][0]).0, s.chains[..i] + s.chains[i + 1..])
    case Cut(i, j) => State(CutAfter(s.t, s.chains[i][j]), s.chains[i := s.chains[i][..j + 1]])
    case Hint(h) => s.(t := s.t.(last := h))
  }

  ghost predicate StateOk(s: State) {
    TableOk(s.t) && WellFormed(s.t.fat, s.chains)
  }

  lemma EntryOfVolume(fat: seq<nat>, chains: seq<seq<nat>>, c: nat)
    requires WellFormed(fat, chains) && IsCluster(fat, c)
    ensures fat[c] != 1 && (fat[c] != 0 <==> Owned(chains, c))
  {
    if Owned(chains, c) {
      var i :| 0 <= i < |chains| && c in chains[i];
      EntryOfChain(fat, chains[i], c);
    }
  }

  /** create_chain on a volume: 0 means full, otherwise a free cluster is taken or a link followed. */
  lemma CreateChainOutcome(s: State, clst: nat)
    requires StateOk(s)
    requires clst == 0 || Owned(s.chains, clst)
    ensures clst != 0 ==> IsCluster(s.t.fat, clst)
    ensures var (t, r) := CreateChain(s.t, clst);
            if clst != 0 && s.t.fat[clst] < |s.t.fat| then t == s.t && r == s.t.fat[clst]
            else if r == 0 then t == s.t && forall c: nat | IsCluster(s.t.fat, c) :: s.t.fat[c] != 0
            else
              && IsCluster(s.t.fat, r) && s.t.fat[r] == 0 && t == Take(s.t, clst, r)
              && forall c: nat | IsCluster(s.t.fat, c) && Before(ScanStart(s.t, clst), c, r) :: s.t.fat[c] != 0
  {
    if clst != 0 {
      var i :| 0 <= i < |s.chains| && clst in s.chains[i];
      EntryOfChain(s.t.fat, s.chains[i], clst);
    }
    forall c: nat | IsCluster(s.t.fat, c) ensures s.t.fat[c] != 1 { EntryOfVolume(s.t.fat, s.chains, c); }
    if !(clst != 0 && s.t.fat[clst] < |s.t.fat|) {
      ScanFindsFirst(s.t.fat, ScanStart(s.t, clst), ScanStart(s.t, clst));
    }
  }

  lemma OtherChain(fat: seq<nat>, chains: seq<seq<nat>>, i: nat, j: nat, c: nat)
    requires WellFormed(fat, chains) && i < |chains| && j < |chains| && i != j
    requires c in chains[j]
    ensures IsCluster(fat, c) && fat[c] >= 2 && c !in chains[i]
  {
    EntryOfChain(fat, chains[j], c);
    assert Disjoint(chains[i], chains[j]) || Disjoint(chains[j], chains[i]);
  }

  /** list1 may take the place of list0: it adds only free clusters, and what it drops is free now. */
  ghost predicate Replaces(fat: seq<nat>, list0: seq<nat>, fat': seq<nat>, list1: seq<nat>) {
    && |fat'| == |fat|
    && (forall c | c in list1 :: c in list0 || (c < |fat| && fat[c] == 0))
    && (forall c: nat | IsCluster(fat, c) && c !in list0 && c !in list1 :: fat'[c] == fat[c])
    && (forall c: nat | IsCluster(fat, c) && c in list0 && c !in list1 :: fat'[c] == 0)
  }

  /** Every other list stays what it was, and stays apart from the new one. */
  lemma KeepList(fat: seq<nat>, lists: seq<seq<nat>>, fat': seq<nat>, i: nat, s: seq<nat>, j: nat)
    requires Partition(fat, lists) && i < |lists| && j < |lists| && i != j && |fat'| == |fat|
    requires Replaces(fat, lists[i], fat', s)
    ensures lists[j] == [] || Chain(fat', lists[j])
    ensures Disjoint(s, lists[j]) && Disjoint(lists[j], s)
    ensures forall c | c in lists[j] :: IsCluster(fat, c) && fat'[c] == fat[c]
  {
    if lists[j] != [] {
      assert Disjoint(lists[i], lists[j]) || Disjoint(lists[j], lists[i]);
      forall c | c in lists[j] ensures c !in s && IsCluster(fat, c) && fat'[c] == fat[c] {
        EntryOfChain(fat, lists[j], c);
      }
      ChainFrame(fat, fat', lists[j]);
    }
  }

  lemma ReplaceCovers(fat: seq<nat>, chains: seq<seq<nat>>, fat': seq<nat>, i: nat, s: seq<nat>)
    requires Covered(fat, chains) && i < |chains| && |fat'| == |fat|
    requires Replaces(fat, chains[i], fat', s)
    ensures Covered(fat', chains[i := s])
  {
    var chains' := chains[i := s];
    forall c: nat | IsCluster(fat', c) && fat'[c] != 0 ensures Owned(chains', c) {
      if c in s {
        assert c in chains'[i];
      } else {
        assert Owned(chains, c);
        var j :| 0 <= j < |chains| && c in chains[j];
        assert c in chains'[j];
      }
    }
  }

  /** The list of one file may change to one that takes only free clusters; what it gives up is free. */
  lemma ReplaceList(fat: seq<nat>, lists: seq<seq<nat>>, fat': seq<nat>, i: nat, s: seq<nat>)
    requires Partition(fat, lists) && i < |lists| && |fat'| == |fat|
    requires (s == [] || Chain(fat', s)) && Replaces(fat, lists[i], fat', s)
    ensures Partition(fat', lists[i := s])
  {
    hide Replaces, Chain, Disjoint, Covered;
    var lists' := lists[i := s];
    ReplaceCovers(fat, lists, fat', i, s);
    forall j | 0 <= j < |lists'| && j != i
      ensures lists'[j] == [] || Chain(fat', lists'[j])
      ensures Disjoint(s, lists'[j]) && Disjoint(lists'[j], s)
    {
      KeepList(fat, lists, fat', i, s, j);
    }
  }

  lemma ReplaceChain(fat: seq<nat>, chains: seq<seq<nat>>, fat': seq<nat>, i: nat, s: seq<nat>)
    requires WellFormed(fat, chains) && i < |chains| && |fat'| == |fat|
    requires Chain(fat', s) && Replaces(fat, chains[i], fat', s)
    ensures WellFormed(fat', chains[i := s])
  {
    hide Replaces, Disjoint, Covered;
    ReplaceList(fat, chains, fat', i, s);
  }

  /** What a file may change in the table by growing: its own entries, and free clusters that it takes. */
  ghost predicate Grows(fat0: seq<nat>, list0: seq<nat>, fat1: seq<nat>, list1: seq<nat>) {
    && |fat1| == |fat0| && list0 <= list1
    && (forall c | c in list1 && c !in list0 :: IsCluster(fat0, c) && fat0[c] == 0)
    && (forall c: nat | IsCluster(fat0, c) && c !in list1 :: fat1[c] == fat0[c])
    && (forall c: nat | IsCluster(fat0, c) && fat1[c] == 1 :: fat0[c] == 1)
  }

  lemma GrowsTrans(fat0: seq<nat>, list0: seq<nat>, fat1: seq<nat>, list1: seq<nat>, fat2: seq<nat>, list2: seq<nat>)
    requires Grows(fat0, list0, fat1, list1) && Grows(fat1, list1, fat2, list2)
    ensures Grows(fat0, list0, fat2, list2)
  {
    forall c | c in list2 && c !in list0 ensures IsCluster(fat0, c) && fat0[c] == 0 {
      assert c in list1 || fat1[c] == fat0[c];
    }
    forall c: nat | IsCluster(fat0, c) && c !in list2 ensures fat2[c] == fat0[c] {
      assert c !in list1;
    }
  }

  /** One more cluster at the end of a chain. */
  lemma TakeGrows(t: Table, list: seq<nat>, r: nat)
    requires TableOk(t) && Chain(t.fat, list) && IsCluster(t.fat, r) && t.fat[r] == 0
    ensures IsCluster(t.fat, list[|list| - 1]) && Grows(t.fat, list, Take(t, list[|list| - 1], r).fat, list + [r])
  {
  }

  /** A file that grows keeps the volume. */
  lemma GrowthKeeps(fat0: seq<nat>, lists: seq<seq<nat>>, i: nat, fat1: seq<nat>, list1: seq<nat>)
    requires Partition(fat0, lists) && i < |lists| && Grows(fat0, lists[i], fat1, list1)
    requires list1 == [] || Chain(fat1, list1)
    ensures Partition(fat1, lists[i := list1]) && Replaces(fat0, lists[i], fat1, list1)
  {
    hide Partition, Chain;
    GrowthReplaces(fat0, lists[i], fat1, list1);
    ReplaceList(fat0, lists, fat1, i, list1);
  }

  lemma GrowthReplaces(fat0: seq<nat>, list0: seq<nat>, fat1: seq<nat>, list1: seq<nat>)
    requires Grows(fat0, list0, fat1, list1)
    ensures Replaces(fat0, list0, fat1, list1)
  {
    forall c: nat | IsCluster(fat0, c) && c !in list1 ensures c !in list0 {
      assert list1[..|list0|] == list0;
    }
  }

  /** Where no cluster is free, growing frees none. */
  lemma FullStays(fat0: seq<nat>, list0: seq<nat>, fat1: seq<nat>, list1: seq<nat>)
    requires Grows(fat0, list0, fat1, list1) && NoneFree(fat0) && (list1 == [] || Chain(fat1, list1))
    ensures NoneFree(fat1)
  {
    forall c: nat | IsCluster(fat1, c) ensures fat1[c] != 0 {
      if c in list1 { EntryOfChain(fat1, list1, c); }
    }
  }

  /** A volume has no entry 1, and growing makes none. */
  lemma NoOnes(fat0: seq<nat>, lists: seq<seq<nat>>, list0: seq<nat>, fat1: seq<nat>, list1: seq<nat>)
    requires Partition(fat0, lists) && Grows(fat0, list0, fat1, list1)
    ensures !HasOne(fat0) && !HasOne(fat1)
  {
    forall c: nat | IsCluster(fat0, c) ensures fat0[c] != 1 {
      if fat0[c] != 0 {
        var i :| 0 <= i < |lists| && c in lists[i];
        EntryOfChain(fat0, lists[i], c);
      }
    }
  }

  /** A file that is cut keeps the volume. */
  lemma CutListKeeps(t: Table, lists: seq<seq<nat>>, i: nat, j: nat)
    requires TableOk(t) && Partition(t.fat, lists) && i < |lists| && j < |lists[i]|
    ensures IsCluster(t.fat, lists[i][j])
    ensures Partition(CutAfter(t, lists[i][j]).fat, lists[i := lists[i][..j + 1]])
    ensures Replaces(t.fat, lists[i], CutAfter(t, lists[i][j]).fat, lists[i][..j + 1])
  {
    hide Partition, Chain;
    ListIsChain(t.fat, lists, i);
    CutReplacesTail(t, lists[i], j);
    CutChain(t, lists[i], j);
    ReplaceList(t.fat, lists, CutAfter(t, lists[i][j]).fat, i, lists[i][..j + 1]);
  }

  lemma CutReplacesTail(t: Table, s: seq<nat>, j: nat)
    requires TableOk(t) && Chain(t.fat, s) && j < |s|
    ensures IsCluster(t.fat, s[j]) && Replaces(t.fat, s, CutAfter(t, s[j]).fat, s[..j + 1])
  {
    hide CutAfter;
    CutChain(t, s, j);
    assert s == s[..j + 1] + s[j + 1..];
  }

  lemma ListIsChain(fat: seq<nat>, lists: seq<seq<nat>>, i: nat)
    requires Partition(fat, lists) && i < |lists| && lists[i] != []
    ensures Chain(fat, lists[i])
  {
  }

  /** So does one that is emptied. */
  lemma DropListKeeps(t: Table, lists: seq<seq<nat>>, i: nat)
    requires Partition(t.fat, lists) && i < |lists| && lists[i] != []
    ensures Partition(RemoveChain(t, lists[i][0]).0.fat, lists[i := []])
    ensures Replaces(t.fat, lists[i], RemoveChain(t, lists[i][0]).0.fat, [])
  {
    hide Partition, RemoveChain, Disjoint, Covered;
    ListIsChain(t.fat, lists, i);
    RemoveWhole(t, lists[i]);
    var fat' := RemoveChain(t, lists[i][0]).0.fat;
    ReplaceList(t.fat, lists, fat', i, []);
  }

  /** s is a chain of clusters that were free. */
  ghost predicate Fresh(fat: seq<nat>, fat': seq<nat>, s: seq<nat>)
    requires |fat'| == |fat|
  {
    && (forall c | c in s :: c < |fat| && fat[c] == 0)
    && (forall c: nat | IsCluster(fat, c) && c !in s :: fat'[c] == fat[c])
  }

  lemma KeepBesideFresh(fat: seq<nat>, fat': seq<nat>, s: seq<nat>, other: seq<nat>)
    requires Chain(fat, other) && |fat'| == |fat| && Fresh(fat, fat', s)
    ensures Chain(fat', other) && Disjoint(other, s)
  {
    forall c | c in other ensures c !in s && c < |fat| && fat'[c] == fat[c] { EntryOfChain(fat, other, c); }
    ChainFrame(fat, fat', other);
  }

  lemma FreshCovers(fat: seq<nat>, chains: seq<seq<nat>>, fat': seq<nat>, s: seq<nat>)
    requires Covered(fat, chains) && |fat'| == |fat| && Fresh(fat, fat', s)
    ensures Covered(fat', chains + [s])
  {
    var chains' := chains + [s];
    forall c: nat | IsCluster(fat', c) && fat'[c] != 0 ensures Owned(chains', c) {
      if c in s {
        assert c in chains'[|chains|];
      } else {
        assert Owned(chains, c);
        var j :| 0 <= j < |chains| && c in chains[j];
        assert c in chains'[j];
      }
    }
  }

  lemma AddChain(fat: seq<nat>, chains: seq<seq<nat>>, fat': seq<nat>, s: seq<nat>)
    requires WellFormed(fat, chains) && |fat'| == |fat| && Chain(fat', s) && Fresh(fat, fat', s)
    ensures WellFormed(fat', chains + [s])
  {
    hide Fresh, Chain, Disjoint, Covered;
    FreshCovers(fat, chains, fat', s);
    forall j | 0 <= j < |chains|
      ensures Chain(fat', chains[j]) && Disjoint(chains[j], s)
    {
      KeepBesideFresh(fat, fat', s, chains[j]);
    }
  }

  /** Exactly the clusters of s were set free. */
  ghost predicate Freed(fat: seq<nat>, fat': seq<nat>, s: seq<nat>)
    requires |fat'| == |fat|
  {
    forall c: nat | IsCluster(fat, c) :: fat'[c] == if c in s then 0 else fat[c]
  }

  lemma KeepBesideFreed(fat: seq<nat>, chains: seq<seq<nat>>, fat': seq<nat>, i: nat, k: nat)
    requires WellFormed(fat, chains) && i < |chains| && k < |chains| && i != k
    requires |fat'| == |fat| && Freed(fat, fat', chains[i])
    ensures Chain(fat', chains[k])
  {
    forall c | c in chains[k] ensures c < |fat| && fat'[c] == fat[c] { OtherChain(fat, chains, i, k, c); }
    ChainFrame(fat, fat', chains[k]);
  }

  lemma FreedCovers(fat: seq<nat>, chains: seq<seq<nat>>, fat': seq<nat>, i: nat)
    requires Covered(fat, chains) && i < |chains| && |fat'| == |fat| && Freed(fat, fat', chains[i])
    ensures Covered(fat', chains[..i] + chains[i + 1..])
  {
    var chains' := chains[..i] + chains[i + 1..];
    forall c: nat | IsCluster(fat', c) && fat'[c] != 0 ensures Owned(chains', c) {
      assert Owned(chains, c);
      var k :| 0 <= k < |chains| && c in chains[k];
      assert chains'[if k < i then k else k - 1] == chains[k];
    }
  }

  lemma DropChain(fat: seq<nat>, chains: seq<seq<nat>>, fat': seq<nat>, i: nat)
    requires WellFormed(fat, chains) && i < |chains| && |fat'| == |fat| && Freed(fat, fat', chains[i])
    ensures WellFormed(fat', chains[..i] + chains[i + 1..])
  {
    hide Freed, Chain, Disjoint, Covered;
    FreedCovers(fat, chains, fat', i);
    forall k | 0 <= k < |chains| && k != i ensures Chain(fat', chains[k]) {
      KeepBesideFreed(fat, chains, fat', i, k);
    }
  }

  /** Any tail of a chain is a chain. */
  lemma TailOfChain(fat: seq<nat>, s: seq<nat>, k: nat)
    requires Chain(fat, s) && k < |s|
    ensures Chain(fat, s[k..])
  {
    var r := s[k..];
    forall i | 0 <= i < |r| - 1 ensures fat[r[i]] == r[i + 1] {
      assert r[i] == s[i + k];
    }
  }

  /** Cutting frees exactly the tail. */
  lemma CutClearsTail(t: Table, s: seq<nat>, j: nat)
    requires TableOk(t) && Chain(t.fat, s) && j + 1 < |s|
    ensures IsCluster(t.fat, s[j])
    ensures var t' := CutAfter(t, s[j]);
            && |t'.fat| == |t.fat| && TableOk(t') && RemoveChain(t.(fat := t.fat[s[j] := t.eoc]), t.fat[s[j]]).1
            && forall c | 0 <= c < |t.fat| ::
                 t'.fat[c] == if c in s[j + 1..] then 0 else if c == s[j] then t.eoc else t.fat[c]
  {
    ChainIsDistinct(t.fat, s);
    assert t.fat[s[j]] == s[j + 1];
    TailOfChain(t.fat, s, j + 1);
    var t1 := t.(fat := t.fat[s[j] := t.eoc]);
    assert s[j] !in s[j + 1..];
    hide Distinct;
    ChainFrame(t.fat, t1.fat, s[j + 1..]);
    ReleaseChain(t1, s[j + 1..]);
    ReleaseKeepsSize(t1, s[j + 1]);
  }

  /** A chain cut behind cluster j: the head is a chain, the tail is free. */
  lemma CutChain(t: Table, s: seq<nat>, j: nat)
    requires TableOk(t) && Chain(t.fat, s) && j < |s|
    ensures IsCluster(t.fat, s[j])
    ensures var t' := CutAfter(t, s[j]);
            && |t'.fat| == |t.fat| && TableOk(t') && Chain(t'.fat, s[..j + 1])
            && (t.fat[s[j]] < |t.fat| ==> RemoveChain(t.(fat := t.fat[s[j] := t.eoc]), t.fat[s[j]]).1)
            && (forall c | c in s[j + 1..] :: c < |t.fat| && t'.fat[c] == 0)
            && (forall c: nat | IsCluster(t.fat, c) && c !in s :: t'.fat[c] == t.fat[c])
  {
    if j + 1 < |s| {
      CutClearsTail(t, s, j);
      ChainIsDistinct(t.fat, s);
      HeadOfChain(t, s, j, CutAfter(t, s[j]).fat);
      hide CutAfter, Distinct;
      assert s == s[..j + 1] + s[j + 1..];
    } else {
      assert s[..j + 1] == s && s[j + 1..] == [];
    }
  }

  /** The link behind cluster j of a chain, and the release of what follows it. */
  lemma CutLink(t: Table, s: seq<nat>, j: nat)
    requires TableOk(t) && Chain(t.fat, s) && j < |s|
    ensures IsCluster(t.fat, s[j]) && t.fat[s[j]] >= 2
    ensures t.fat[s[j]] < |t.fat| ==> RemoveChain(t.(fat := t.fat[s[j] := t.eoc]), t.fat[s[j]]).1
  {
    CutChain(t, s, j);
    EntryOfChain(t.fat, s, s[j]);
  }

  /** remove_chain of a whole chain. */
  lemma RemoveWhole(t: Table, s: seq<nat>)
    requires Chain(t.fat, s)
    ensures var (t', ok) := RemoveChain(t, s[0]);
            && ok && |t'.fat| == |t.fat|
            && forall c | 0 <= c < |t.fat| :: t'.fat[c] == if c in s then 0 else t.fat[c]
  {
    ReleaseChain(t, s);
  }

  lemma HeadOfChain(t: Table, s: seq<nat>, j: nat, fat': seq<nat>)
    requires TableOk(t) && Chain(t.fat, s) && Distinct(s) && j + 1 < |s| && |fat'| == |t.fat|
    requires forall c | 0 <= c < |t.fat| ::
               fat'[c] == if c in s[j + 1..] then 0 else if c == s[j] then t.eoc else t.fat[c]
    ensures Chain(fat', s[..j + 1])
  {
    var head := s[..j + 1];
    forall i | 0 <= i < |head| ensures head[i] !in s[j + 1..] { }
  }

  /** One operation keeps the volume well formed. */
  lemma StepKeeps(s: State, op: Op)
    requires StateOk(s) && Enabled(s, op)
    ensures op.Cut? ==> IsCluster(s.t.fat, s.chains[op.i][op.j])
    ensures StateOk(Step(s, op)) && |Step(s, op).t.fat| == |s.t.fat|
  {
    match op
    case NewChain => NewChainKeeps(s);
    case Extend(i, j) => ExtendKeeps(s, i, j);
    case Delete(i) => DeleteKeeps(s, i);
    case Cut(i, j) => CutKeeps(s, i, j);
    case Hint(h) =>
  }

  lemma NewChainKeeps(s: State)
    requires StateOk(s)
    ensures StateOk(Step(s, NewChain)) && |Step(s, NewChain).t.fat| == |s.t.fat|
  {
    CreateChainOutcome(s, 0);
    var (t', r) := CreateChain(s.t, 0);
    if r >= 2 {
      assert Chain(t'.fat, [r]);
      AddChain(s.t.fat, s.chains, t'.fat, [r]);
    }
  }

  lemma ExtendKeeps(s: State, i: nat, j: nat)
    requires StateOk(s) && Enabled(s, Extend(i, j))
    ensures StateOk(Step(s, Extend(i, j))) && |Step(s, Extend(i, j)).t.fat| == |s.t.fat|
  {
    hide Chain, Disjoint, Covered, CreateChain;
    ExtendOutcome(s.t, s.chains[i], j);
    VolumeHasNoOne(s);
    var r := CreateChain(s.t, s.chains[i][j]).1;
    if j + 1 == |s.chains[i]| && r >= 2 {
      StretchReplaces(s.t, s.chains, i, r);
    }
  }

  lemma VolumeHasNoOne(s: State)
    requires StateOk(s)
    ensures !HasOne(s.t.fat)
  {
    if HasOne(s.t.fat) {
      var c: nat :| IsCluster(s.t.fat, c) && s.t.fat[c] == 1;
      EntryOfVolume(s.t.fat, s.chains, c);
    }
  }

  lemma StretchReplaces(t: Table, chains: seq<seq<nat>>, i: nat, r: nat)
    requires TableOk(t) && WellFormed(t.fat, chains) && i < |chains| && IsCluster(t.fat, r) && t.fat[r] == 0
    ensures var s := chains[i];
            |s| > 0 && IsCluster(t.fat, s[|s| - 1]) && WellFormed(Take(t, s[|s| - 1], r).fat, chains[i := s + [r]])
  {
    var s := chains[i];
    StretchedChain(t, s, r);
    StretchAllowed(t, chains, i, r);
    hide WellFormed, Replaces, Chain;
    ReplaceChain(t.fat, chains, Take(t, s[|s| - 1], r).fat, i, s + [r]);
  }

  lemma StretchAllowed(t: Table, chains: seq<seq<nat>>, i: nat, r: nat)
    requires i < |chains| && |chains[i]| > 0 && IsCluster(t.fat, r) && t.fat[r] == 0
    requires IsCluster(t.fat, chains[i][|chains[i]| - 1])
    ensures var s := chains[i];
            Replaces(t.fat, chains[i], Take(t, s[|s| - 1], r).fat, s + [r])
  {
    var s := chains[i];
    assert s[|s| - 1] in s;
  }

  lemma DeleteKeeps(s: State, i: nat)
    requires StateOk(s) && Enabled(s, Delete(i))
    ensures StateOk(Step(s, Delete(i))) && |Step(s, Delete(i)).t.fat| == |s.t.fat|
  {
    ReleaseChain(s.t, s.chains[i]);
    ReleaseKeepsSize(s.t, s.chains[i][0]);
    DropChain(s.t.fat, s.chains, RemoveChain(s.t, s.chains[i][0]).0.fat, i);
  }

  lemma CutKeeps(s: State, i: nat, j: nat)
    requires StateOk(s) && Enabled(s, Cut(i, j))
    ensures IsCluster(s.t.fat, s.chains[i][j])
    ensures StateOk(Step(s, Cut(i, j))) && |Step(s, Cut(i, j)).t.fat| == |s.t.fat|
  {
    hide Chain, WellFormed, CutAfter, Replaces;
    ChainOfVolume(s.t.fat, s.chains, i);
    CutChain(s.t, s.chains[i], j);
    CutReplacesTail(s.t, s.chains[i], j);
    ReplaceChain(s.t.fat, s.chains, CutAfter(s.t, s.chains[i][j]).fat, i, s.chains[i][..j + 1]);
  }

  lemma ChainOfVolume(fat: seq<nat>, chains: seq<seq<nat>>, i: nat)
    requires WellFormed(fat, chains) && i < |chains|
    ensures Chain(fat, chains[i])
  {
    hide Chain, Covered, Disjoint;
  }

  lemma {:induction false} ReleaseKeepsSize(t: Table, c: nat)
    requires c >= 2
    ensures Release(t, c).0.eoc == t.eoc && Release(t, c).0.last == t.last
    decreases |t.fat| - Free(t.fat)
  {
    if c < |t.fat| && t.fat[c] >= 2 {
      FreeBelowUpdate(t.fat, |t.fat|, c, 0);
      FreeBelowBound(t.fat, |t.fat|);
      ReleaseKeepsSize(t.(fat := t.fat[c := 0], free := CountUp(t.free), fsi := t.fsi || t.free != UNKNOWN), t.fat[c]);
    }
  }

  /** Any number of operations; one that names no chain or cluster of the volume does nothing. */
  ghost function Run(s: State, ops: seq<Op>): State
    requires StateOk(s)
    decreases |ops|
  {
    if ops == [] then s
    else if !Enabled(s, ops[0]) then Run(s, ops[1..])
    else
      StepKeeps(s, ops[0]);
      Run(Step(s, ops[0]), ops[1..])
  }

  /** Every run: chains stay acyclic, terminated and apart, and they are all that is in the table. */
  lemma {:induction false} RunKeeps(s: State, ops: seq<Op>)
    requires StateOk(s)
    ensures StateOk(Run(s, ops)) && |Run(s, ops).t.fat| == |s.t.fat|
    decreases |ops|
  {
    if ops != [] {
      if Enabled(s, ops[0]) {
        StepKeeps(s, ops[0]);
        RunKeeps(Step(s, ops[0]), ops[1..]);
      } else {
        RunKeeps(s, ops[1..]);
      }
    }
  }

  // ---------------------------------------------------------------- the free cluster count

  /** The recorded count is known, and exceeds the true one by d; d is negative if it is too low. */
  predicate CountsOff(t: Table, d: int) {
    t.free < UNKNOWN && t.free - Free(t.fat) == d
  }

  /** An allocation keeps the difference exactly if the recorded count is not 0, and makes a count of 0 unknown. */
  lemma TakeCounts(t: Table, clst: nat, r: nat)
    requires TableOk(t) && t.free < UNKNOWN && IsCluster(t.fat, r) && t.fat[r] == 0
    requires clst != 0 ==> IsCluster(t.fat, clst) && t.fat[clst] != 0
    ensures CountsOff(Take(t, clst, r), t.free - Free(t.fat)) <==> t.free > 0
    ensures t.free == 0 ==> Take(t, clst, r).free == UNKNOWN
  {
    FreeBelowUpdate(t.fat, |t.fat|, r, t.eoc);
    if clst != 0 {
      FreeBelowUpdate(t.fat[r := t.eoc], |t.fat|, clst, r);
    }
  }

  /** A recorded count that is too low: one cluster is free, none is recorded, and the allocation loses the count. */
  lemma LowCountIsLost()
    ensures var t := Table([1, 1, 0], 0xFFFF, 0, 0, false);
            TableOk(t) && CountsOff(t, -1) && CreateChain(t, 0).1 == 2 && CreateChain(t, 0).0.free == UNKNOWN
  {
    var t := Table([1, 1, 0], 0xFFFF, 0, 0, false);
    ScanFindsFirst(t.fat, 1, 1);
    assert FreeBelow(t.fat, 2) == 0 && FreeBelow(t.fat, 3) == 1;
  }

  /** Clearing different clusters that are in use adds their number to the free ones. */
  lemma {:induction false} ClearCounts(fat: seq<nat>, fat': seq<nat>, s: seq<nat>)
    requires Distinct(s) && |fat'| == |fat| && forall c | c in s :: IsCluster(fat, c) && fat[c] != 0
    requires forall c | 0 <= c < |fat| :: fat'[c] == if c in s then 0 else fat[c]
    ensures Free(fat') == Free(fat) + |s|
    decreases |s|
  {
    if s == [] {
      assert fat' == fat;
    } else {
      FreeBelowUpdate(fat, |fat|, s[0], 0);
      var r := s[1..];
      assert s == [s[0]] + r;
      forall i | 0 <= i < |r| ensures r[i] != s[0] && r[i] in s { assert r[i] == s[i + 1]; }
      ClearCounts(fat[s[0] := 0], fat', r);
    }
  }

  /**
   A release of a chain keeps the difference exactly if the count and the length of the chain stay below
   0xFFFFFFFF.
  */
  lemma ReleaseKeepsCount(t: Table, s: seq<nat>)
    requires t.free < UNKNOWN && Chain(t.fat, s)
    ensures CountsOff(Release(t, s[0]).0, t.free - Free(t.fat)) <==> t.free + |s| < UNKNOWN
    ensures t.free + |s| >= UNKNOWN ==> Release(t, s[0]).0.free == UNKNOWN
  {
    ReleaseCounts(t, s[0]);
    ReleaseChain(t, s);
    ChainIsDistinct(t.fat, s);
    forall c | c in s ensures IsCluster(t.fat, c) && t.fat[c] != 0 { EntryOfChain(t.fat, s, c); }
    ClearCounts(t.fat, Release(t, s[0]).0.fat, s);
  }

  /** So does f_truncate, which releases the clusters behind cluster j. */
  lemma CutKeepsCount(t: Table, s: seq<nat>, j: nat)
    requires TableOk(t) && t.free < UNKNOWN && Chain(t.fat, s) && j < |s|
    ensures IsCluster(t.fat, s[j])
    ensures CountsOff(CutAfter(t, s[j]), t.free - Free(t.fat)) <==> t.free + (|s| - 1 - j) < UNKNOWN
    ensures t.free + (|s| - 1 - j) >= UNKNOWN ==> CutAfter(t, s[j]).free == UNKNOWN
  {
    if j + 1 < |s| {
      var t1 := t.(fat := t.fat[s[j] := t.eoc]);
      ChainIsDistinct(t.fat, s);
      TailOfChain(t.fat, s, j + 1);
      ChainFrame(t.fat, t1.fat, s[j + 1..]);
      FreeBelowUpdate(t.fat, |t.fat|, s[j], t.eoc);
      ReleaseKeepsCount(t1, s[j + 1..]);
    }
  }

  /** The operation takes a free cluster. */
  ghost predicate Takes(s: State, op: Op) {
    !NoneFree(s.t.fat) && (op.NewChain? || (op.Extend? && op.i < |s.chains| && op.j + 1 == |s.chains[op.i]|))
  }

  /** How many clusters the operation sets free. */
  function Frees(s: State, op: Op): nat
    requires Enabled(s, op)
  {
    match op
    case Delete(i) => |s.chains[i]|
    case Cut(i, j) => |s.chains[i]| - 1 - j
    case _ => 0
  }

  /** The recorded count bears the operation. */
  ghost predicate CountBears(s: State, op: Op)
    requires Enabled(s, op)
  {
    (Takes(s, op) ==> s.t.free > 0) && s.t.free + Frees(s, op) < UNKNOWN
  }

  /** One operation keeps the difference exactly if the count bears it; otherwise the count becomes unknown. */
  lemma StepKeepsCount(s: State, op: Op)
    requires StateOk(s) && Enabled(s, op) && s.t.free < UNKNOWN
    requires op.Cut? ==> IsCluster(s.t.fat, s.chains[op.i][op.j])
    ensures CountsOff(Step(s, op).t, s.t.free - Free(s.t.fat)) <==> CountBears(s, op)
    ensures !CountBears(s, op) ==> Step(s, op).t.free == UNKNOWN
  {
    hide Chain, CreateChain, Free, Release, CutAfter;
    match op
    case NewChain =>
      TakesOne(s, 0);
      var r := CreateChain(s.t, 0).1;
      if r >= 2 { TakeCounts(s.t, 0, r); }
    case Extend(i, j) =>
      var c := s.chains[i][j];
      LinkInVolume(s, i, j);
      TakesOne(s, c);
      var r := CreateChain(s.t, c).1;
      if j + 1 == |s.chains[i]| && r >= 2 { TakeCounts(s.t, c, r); }
    case Delete(i) =>
      EntryOfChain(s.t.fat, s.chains[i], s.chains[i][0]);
      ReleaseKeepsCount(s.t, s.chains[i]);
    case Cut(i, j) =>
      CutKeepsCount(s.t, s.chains[i], j);
    case Hint(h) =>
  }

  /** create_chain takes a cluster unless it follows a link or none is free. */
  lemma TakesOne(s: State, clst: nat)
    requires StateOk(s) && (clst == 0 || Owned(s.chains, clst))
    ensures clst != 0 ==> IsCluster(s.t.fat, clst)
    ensures var (t, r) := CreateChain(s.t, clst);
            if clst != 0 && s.t.fat[clst] < |s.t.fat| then t == s.t
            else if NoneFree(s.t.fat) then t == s.t && r == 0
            else IsCluster(s.t.fat, r) && s.t.fat[r] == 0 && t == Take(s.t, clst, r)
  {
    hide CreateChain;
    CreateChainOutcome(s, clst);
  }

  lemma LinkInVolume(s: State, i: nat, j: nat)
    requires StateOk(s) && i < |s.chains| && j < |s.chains[i]|
    ensures var c := s.chains[i][j];
            Owned(s.chains, c) && IsCluster(s.t.fat, c) && s.t.fat[c] != 0
              && (s.t.fat[c] < |s.t.fat| <==> j + 1 < |s.chains[i]|)
  {
    EntryOfChain(s.t.fat, s.chains[i], s.chains[i][j]);
    if j + 1 < |s.chains[i]| {
      assert s.t.fat[s.chains[i][j]] == s.chains[i][j + 1];
    }
  }

  /** The recorded count bears every operation of the run. */
  ghost predicate RunBorne(s: State, ops: seq<Op>)
    requires StateOk(s)
    decreases |ops|
  {
    if ops == [] then true
    else if !Enabled(s, ops[0]) then RunBorne(s, ops[1..])
    else
      StepKeeps(s, ops[0]);
      CountBears(s, ops[0]) && RunBorne(Step(s, ops[0]), ops[1..])
  }

  /** An unknown count stays unknown until f_getfree scans the table. */
  lemma StepUnknown(s: State, op: Op)
    requires StateOk(s) && Enabled(s, op) && s.t.free == UNKNOWN
    requires op.Cut? ==> IsCluster(s.t.fat, s.chains[op.i][op.j])
    ensures Step(s, op).t.free == UNKNOWN
  {
    hide StateOk, WellFormed, Chain, Release, Scan;
    match op
    case Delete(i) => RemoveUnknown(s.t, s.chains[i][0]);
    case Cut(i, j) =>
      var c := s.chains[i][j];
      RemoveUnknown(s.t.(fat := s.t.fat[c := s.t.eoc]), s.t.fat[c]);
    case _ =>
  }

  lemma RemoveUnknown(t: Table, c: nat)
    requires t.free == UNKNOWN
    ensures RemoveChain(t, c).0.free == UNKNOWN
  {
    hide Release;
    if IsCluster(t.fat, c) { UnknownStays(t, c); }
  }

  lemma {:induction false} RunUnknown(s: State, ops: seq<Op>)
    requires StateOk(s) && s.t.free == UNKNOWN
    ensures Run(s, ops).t.free == UNKNOWN
    decreases |ops|
  {
    if ops != [] {
      if Enabled(s, ops[0]) {
        StepKeeps(s, ops[0]);
        StepUnknown(s, ops[0]);
        RunUnknown(Step(s, ops[0]), ops[1..]);
      } else {
        RunUnknown(s, ops[1..]);
      }
    }
  }

  /**
   Every run: the recorded count moves exactly with the number of free clusters, from
   whatever difference it starts with, exactly if it bears every operation of the run;
   otherwise it is unknown at the end.
   */
  lemma {:induction false} RunKeepsCount(s: State, ops: seq<Op>)
    requires StateOk(s) && s.t.free < UNKNOWN
    ensures CountsOff(Run(s, ops).t, s.t.free - Free(s.t.fat)) <==> RunBorne(s, ops)
    ensures !RunBorne(s, ops) ==> Run(s, ops).t.free == UNKNOWN
    decreases |ops|
  {
    hide Step, CountBears, Free, WellFormed, Chain;
    if ops != [] {
      if Enabled(s, ops[0]) {
        StepKeeps(s, ops[0]);
        StepKeepsCount(s, ops[0]);
        if CountBears(s, ops[0]) {
          RunKeepsCount(Step(s, ops[0]), ops[1..]);
        } else {
          RunUnknown(Step(s, ops[0]), ops[1..]);
        }
      } else {
        RunKeepsCount(s, ops[1..]);
      }
    }
  }

  /** A count that is not too low, nor so high that it could wrap, bears every run. */
  lemma {:induction false} HighCountBears(s: State, ops: seq<Op>)
    requires StateOk(s) && Free(s.t.fat) <= s.t.free && s.t.free - Free(s.t.fat) + |s.t.fat| < UNKNOWN
    ensures RunBorne(s, ops)
    decreases |ops|
  {
    if ops != [] {
      if Enabled(s, ops[0]) {
        StepKeeps(s, ops[0]);
        BearsStep(s, ops[0]);
        StepKeepsCount(s, ops[0]);
        HighCountBears(Step(s, ops[0]), ops[1..]);
      } else {
        HighCountBears(s, ops[1..]);
      }
    }
  }

  lemma BearsStep(s: State, op: Op)
    requires StateOk(s) && Enabled(s, op)
    requires Free(s.t.fat) <= s.t.free && s.t.free - Free(s.t.fat) + |s.t.fat| < UNKNOWN
    ensures CountBears(s, op)
  {
    FreeBelowBound(s.t.fat, |s.t.fat|);
    if op.Delete? || op.Cut? {
      UsedAndFree(s.t.fat, s.chains[op.i]);
    }
  }

  /** The clusters of a chain and the free ones fit the table together. */
  lemma UsedAndFree(fat: seq<nat>, s: seq<nat>)
    requires Chain(fat, s)
    ensures Free(fat) + |s| <= |fat|
  {
    var fat' := seq(|fat|, c requires 0 <= c < |fat| => if c in s then 0 else fat[c]);
    ChainIsDistinct(fat, s);
    forall c | c in s ensures IsCluster(fat, c) && fat[c] != 0 { EntryOfChain(fat, s, c); }
    ClearCounts(fat, fat', s);
    FreeBelowBound(fat', |fat'|);
  }
}
