/** The process table of the monitor (`SystemMonitor::get_top_processes`):
    the processes, in whatever order the system reports them, are sorted
    by resident memory, largest first, with a stable sort (equal memory
    keeps the reported order), and the list is cut to the first `count`. */
module Processes {
  import opened RustInt

  datatype ProcessInfo = ProcessInfo(pid: nat, name: string, cpuUsage: real, memory: u64)

  /** Non-increasing by memory. */
  predicate SortedByMemoryDesc(s: seq<ProcessInfo>) {
    forall i, j :: 0 <= i < j < |s| ==> s[i].memory >= s[j].memory
  }

  /** The entries of `s` whose memory is `m`, in their order in `s`. */
  function WithMemory(s: seq<ProcessInfo>, m: nat): (r: seq<ProcessInfo>)
    ensures |r| <= |s|
    ensures forall x :: x in r ==> x in s && x.memory == m
  {
    if |s| == 0 then []
    else (if s[0].memory == m then [s[0]] else []) + WithMemory(s[1..], m)
  }

  /** `t` is a stable sort of `s` by memory, largest first: sorted, and for
      every memory value the entries with that value appear in `t` in the
      same order as in `s`. */
  ghost predicate IsStableSortOf(t: seq<ProcessInfo>, s: seq<ProcessInfo>) {
    SortedByMemoryDesc(t) && forall m: nat :: WithMemory(t, m) == WithMemory(s, m)
  }

  /** Puts `p` in front of the first entry whose memory is not larger. */
  function Insert(p: ProcessInfo, t: seq<ProcessInfo>): (r: seq<ProcessInfo>)
    ensures |r| == |t| + 1
    ensures multiset(r) == multiset(t) + multiset{p}
  {
    if |t| == 0 || t[0].memory <= p.memory then [p] + t
    else
      assert t == [t[0]] + t[1..];
      [t[0]] + Insert(p, t[1..])
  }

  /** Every entry after an insertion is the inserted one or an old one. */
  lemma InsertMembers(p: ProcessInfo, t: seq<ProcessInfo>, x: ProcessInfo)
    requires x in Insert(p, t)
    ensures x == p || x in t
  {
    assert x in multiset(Insert(p, t));
  }

  /** Inserting into a sorted list keeps it sorted. */
  lemma {:induction false} InsertSorted(p: ProcessInfo, t: seq<ProcessInfo>)
    requires SortedByMemoryDesc(t)
    ensures SortedByMemoryDesc(Insert(p, t))
  {
    if |t| > 0 && t[0].memory > p.memory {
      var rest := Insert(p, t[1..]);
      InsertSorted(p, t[1..]);
      var r := [t[0]] + rest;
      assert Insert(p, t) == r;
      forall j | 0 < j < |r| ensures r[0].memory >= r[j].memory {
        assert r[j] == rest[j - 1];
        InsertMembers(p, t[1..], rest[j - 1]);
      }
      forall i, j | 0 < i < j < |r| ensures r[i].memory >= r[j].memory {
        assert r[i] == rest[i - 1] && r[j] == rest[j - 1];
      }
    }
  }

  /** `sort_by` with the memory comparison reversed: a stable sort, largest memory first. */
  function SortByMemory(s: seq<ProcessInfo>): (t: seq<ProcessInfo>)
    ensures |t| == |s|
    ensures multiset(t) == multiset(s)
    ensures SortedByMemoryDesc(t)
  {
    if |s| == 0 then []
    else
      assert s == [s[0]] + s[1..];
      var rest := SortByMemory(s[1..]);
      InsertSorted(s[0], rest);
      Insert(s[0], rest)
  }

  function Min(a: nat, b: nat): (m: nat) {
    if a <= b then a else b
  }

  /** `get_top_processes(count)`: the sorted list truncated to `count`. It
      is as long as `count` allows, sorted, drawn from the input, never
      passes over a larger process, and keeps the input order among equal
      memory. */
  function TopProcesses(procs: seq<ProcessInfo>, count: nat): (top: seq<ProcessInfo>)
    ensures |top| == Min(count, |procs|)
    ensures SortedByMemoryDesc(top)
    ensures multiset(top) <= multiset(procs)
    ensures forall p :: p in multiset(procs) - multiset(top) ==>
      forall q :: q in top ==> p.memory <= q.memory
    ensures forall m: nat :: WithMemory(top, m) <= WithMemory(procs, m)
  {
    var k := Min(count, |procs|);
    SortedPrefix(procs, k);
    SortByMemory(procs)[..k]
  }

  /** The first `k` entries of the sort, with everything `TopProcesses` promises of them. */
  lemma SortedPrefix(procs: seq<ProcessInfo>, k: nat)
    requires k <= |procs|
    ensures var top := SortByMemory(procs)[..k];
      && SortedByMemoryDesc(top)
      && multiset(top) <= multiset(procs)
      && (forall p :: p in multiset(procs) - multiset(top) ==>
            forall q :: q in top ==> p.memory <= q.memory)
      && (forall m: nat :: WithMemory(top, m) <= WithMemory(procs, m))
  {
    var t := SortByMemory(procs);
    TakeLeavesOutTail(t, k);
    SortedSplit(t, k);
    SortedPrefixKeepsOrder(procs, k);
  }

  // ---------------------------------------------------------------------
  // Stability
  // ---------------------------------------------------------------------

  /** Inserting adds `p` in front of the entries with its memory value;
      the other memory classes are unchanged. */
  lemma WithMemoryCons(x: ProcessInfo, s: seq<ProcessInfo>, m: nat)
    ensures WithMemory([x] + s, m) == (if x.memory == m then [x] else []) + WithMemory(s, m)
  {
    assert ([x] + s)[1..] == s;
  }

  lemma {:induction false} InsertWithMemory(p: ProcessInfo, t: seq<ProcessInfo>, m: nat)
    ensures WithMemory(Insert(p, t), m) == (if p.memory == m then [p] else []) + WithMemory(t, m)
  {
    if |t| == 0 || t[0].memory <= p.memory {
      WithMemoryCons(p, t, m);
    } else {
      var rest := Insert(p, t[1..]);
      assert Insert(p, t) == [t[0]] + rest;
      assert t == [t[0]] + t[1..];
      InsertWithMemory(p, t[1..], m);
      WithMemoryCons(t[0], rest, m);
      WithMemoryCons(t[0], t[1..], m);
      if t[0].memory == m {
        assert p.memory != m;
        assert WithMemory(rest, m) == WithMemory(t[1..], m);
      } else {
        assert WithMemory(Insert(p, t), m) == WithMemory(rest, m);
        assert WithMemory(t, m) == WithMemory(t[1..], m);
      }
    }
  }

  /** Sorting keeps the input order among entries with equal memory. */
  lemma {:induction false} SortStable(s: seq<ProcessInfo>, m: nat)
    ensures WithMemory(SortByMemory(s), m) == WithMemory(s, m)
  {
    if |s| > 0 {
      SortStable(s[1..], m);
      InsertWithMemory(s[0], SortByMemory(s[1..]), m);
    }
  }

  /** The sort is a stable sort in the sense of `IsStableSortOf`. */
  lemma SortIsStableSort(s: seq<ProcessInfo>)
    ensures IsStableSortOf(SortByMemory(s), s)
  {
    forall m: nat ensures WithMemory(SortByMemory(s), m) == WithMemory(s, m) {
      SortStable(s, m);
    }
  }

  lemma HeadIsLargest(t: seq<ProcessInfo>, x: ProcessInfo)
    requires SortedByMemoryDesc(t) && x in t
    ensures x.memory <= t[0].memory
  {
  }

  /** A list is empty exactly when every memory class of it is empty. */
  lemma EmptyIffNoClass(s: seq<ProcessInfo>)
    ensures s == [] <==> forall m: nat :: WithMemory(s, m) == []
  {
    if |s| > 0 {
      assert WithMemory(s, s[0].memory)[0] == s[0];
    }
  }

  /** Two non-empty sorted lists that agree on the order of every memory
      class start with the same entry. */
  lemma SameHead(t: seq<ProcessInfo>, u: seq<ProcessInfo>)
    requires |t| > 0 && |u| > 0
    requires SortedByMemoryDesc(t) && SortedByMemoryDesc(u)
    requires forall m: nat :: WithMemory(t, m) == WithMemory(u, m)
    ensures t[0] == u[0]
  {
    var mt, mu := t[0].memory, u[0].memory;
    assert WithMemory(t, mt)[0] == t[0];
    assert WithMemory(u, mu)[0] == u[0];
    var x := WithMemory(t, mu)[0];
    assert x in WithMemory(t, mu);
    HeadIsLargest(t, x);
    var y := WithMemory(u, mt)[0];
    assert y in WithMemory(u, mt);
    HeadIsLargest(u, y);
  }

  /** Removing the same head from two lists keeps them agreeing on every memory class. */
  lemma SameTailClasses(t: seq<ProcessInfo>, u: seq<ProcessInfo>)
    requires |t| > 0 && |u| > 0 && t[0] == u[0]
    requires forall m: nat :: WithMemory(t, m) == WithMemory(u, m)
    ensures forall m: nat :: WithMemory(t[1..], m) == WithMemory(u[1..], m)
  {
    forall m: nat ensures WithMemory(t[1..], m) == WithMemory(u[1..], m) {
      var h: seq<ProcessInfo> := if t[0].memory == m then [t[0]] else [];
      var rt, ru := WithMemory(t[1..], m), WithMemory(u[1..], m);
      assert WithMemory(t, m) == h + rt;
      assert WithMemory(u, m) == h + ru;
      assert (h + rt)[|h|..] == rt;
      assert (h + ru)[|h|..] == ru;
    }
  }

  /** Two sorted lists that agree on the order of every memory class are equal. */
  lemma {:induction false} StableSortUnique(t: seq<ProcessInfo>, u: seq<ProcessInfo>)
    requires SortedByMemoryDesc(t) && SortedByMemoryDesc(u)
    requires forall m: nat :: WithMemory(t, m) == WithMemory(u, m)
    ensures t == u
  {
    EmptyIffNoClass(t);
    EmptyIffNoClass(u);
    if |t| > 0 {
      assert |u| > 0;
      SameHead(t, u);
      SameTailClasses(t, u);
      StableSortUnique(t[1..], u[1..]);
      assert t == [t[0]] + t[1..];
      assert u == [u[0]] + u[1..];
    }
  }

  /** The sort is exactly the stable descending sort: any list that is a
      stable descending sort of the input is the sort's result. */
  lemma SortCharacterized(s: seq<ProcessInfo>, t: seq<ProcessInfo>)
    ensures IsStableSortOf(t, s) <==> t == SortByMemory(s)
  {
    SortIsStableSort(s);
    if IsStableSortOf(t, s) {
      StableSortUnique(t, SortByMemory(s));
    }
  }

  // ---------------------------------------------------------------------
  // The top-N list
  // ---------------------------------------------------------------------

  lemma {:induction false} WithMemoryTakePrefix(t: seq<ProcessInfo>, k: nat, m: nat)
    requires k <= |t|
    ensures WithMemory(t[..k], m) <= WithMemory(t, m)
  {
    if k > 0 {
      assert t[..k][1..] == t[1..][..k - 1];
      WithMemoryTakePrefix(t[1..], k - 1, m);
    }
  }

  /** In a sorted list nothing after position `k` is larger than anything before it. */
  lemma SortedSplit(t: seq<ProcessInfo>, k: nat)
    requires SortedByMemoryDesc(t) && k <= |t|
    ensures forall p, q :: p in t[k..] && q in t[..k] ==> p.memory <= q.memory
  {
    forall p, q | p in t[k..] && q in t[..k] ensures p.memory <= q.memory {
      var j :| 0 <= j < |t[k..]| && t[k..][j] == p;
      var i :| 0 <= i < |t[..k]| && t[..k][i] == q;
      assert t[k + j] == p && t[i] == q;
    }
  }

  /** Truncating a list leaves out exactly the multiset of its tail. */
  lemma TakeLeavesOutTail(t: seq<ProcessInfo>, k: nat)
    requires k <= |t|
    ensures multiset(t) - multiset(t[..k]) == multiset(t[k..])
  {
    assert t == t[..k] + t[k..];
    assert multiset(t) == multiset(t[..k]) + multiset(t[k..]);
  }

  /** Any prefix of the sort lists each memory class in input order. */
  lemma SortedPrefixKeepsOrder(procs: seq<ProcessInfo>, k: nat)
    requires k <= |procs|
    ensures forall m: nat :: WithMemory(SortByMemory(procs)[..k], m) <= WithMemory(procs, m)
  {
    var t := SortByMemory(procs);
    forall m: nat ensures WithMemory(t[..k], m) <= WithMemory(procs, m) {
      WithMemoryTakePrefix(t, k, m);
      SortStable(procs, m);
    }
  }

  lemma {:induction false} WithMemoryHasTwo(s: seq<ProcessInfo>, i: nat, j: nat, m: nat)
    requires i < j < |s| && s[i].memory == m && s[j].memory == m
    ensures |WithMemory(s, m)| >= 2
  {
    if i == 0 {
      WithMemoryHasOne(s[1..], j - 1, m);
    } else {
      WithMemoryHasTwo(s[1..], i - 1, j - 1, m);
    }
  }

  lemma {:induction false} WithMemoryHasOne(s: seq<ProcessInfo>, j: nat, m: nat)
    requires j < |s| && s[j].memory == m
    ensures |WithMemory(s, m)| >= 1
  {
    if j > 0 {
      WithMemoryHasOne(s[1..], j - 1, m);
    }
  }

  predicate DistinctMemory(s: seq<ProcessInfo>) {
    forall i, j :: 0 <= i < j < |s| ==> s[i].memory != s[j].memory
  }

  lemma {:induction false} WithMemoryNone(s: seq<ProcessInfo>, m: nat)
    requires forall k :: 0 <= k < |s| ==> s[k].memory != m
    ensures WithMemory(s, m) == []
  {
    if |s| > 0 {
      WithMemoryNone(s[1..], m);
    }
  }

  lemma {:induction false} WithMemoryAtMostOne(s: seq<ProcessInfo>, m: nat)
    requires DistinctMemory(s)
    ensures |WithMemory(s, m)| <= 1
  {
    if |s| > 0 {
      if s[0].memory == m {
        forall k | 0 <= k < |s[1..]| ensures s[1..][k].memory != m {
          assert s[1..][k] == s[k + 1];
        }
        WithMemoryNone(s[1..], m);
      } else {
        WithMemoryAtMostOne(s[1..], m);
      }
    }
  }

  /** With pairwise different memory values the top list is strictly
      decreasing (twenty such processes and a count of 15 give fifteen
      strictly decreasing entries). */
  lemma TopProcessesStrictWhenDistinct(procs: seq<ProcessInfo>, count: nat)
    requires DistinctMemory(procs)
    ensures var top := TopProcesses(procs, count);
      |top| == Min(count, |procs|) && forall i, j :: 0 <= i < j < |top| ==> top[i].memory > top[j].memory
  {
    var top := TopProcesses(procs, count);
    forall i, j | 0 <= i < j < |top| ensures top[i].memory > top[j].memory {
      if top[i].memory == top[j].memory {
        var m := top[i].memory;
        WithMemoryHasTwo(top, i, j, m);
        WithMemoryAtMostOne(procs, m);
        assert false;
      }
    }
  }
}
