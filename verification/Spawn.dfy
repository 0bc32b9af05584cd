/**
 Redirections of a child process before exec: the descriptor table, dup, dup2 and
 close, and the three loops that move the standard descriptors through temporaries.
 */
module Spawn {

  /** What a descriptor refers to, and whether exec closes it. */
  datatype Entry = Entry(file: int, cloexec: bool)

  /** How the redirections end: in order, or with a report through the failure descriptor. */
  datatype Outcome = Redirected | Failed(call: string)

  // The lowest descriptor from k on that is free, if there is one below the limit.
  function LowestFree(keys: set<nat>, k: nat, limit: nat): (r: int)
    ensures r == -1 || (k <= r < limit && r !in keys && forall j: nat :: k <= j < r ==> j in keys)
    ensures r == -1 <==> forall j: nat :: k <= j < limit ==> j in keys
    decreases if k < limit then limit - k else 0
  {
    if k >= limit then -1 else if k !in keys then k else LowestFree(keys, k + 1, limit)
  }

  // The descriptors from three on that are free.
  ghost function Free(table: map<nat, Entry>, limit: nat): set<nat> {
    set j: nat | 3 <= j < limit && j !in table
  }

  class Process {
    var table: map<nat, Entry>
    const limit: nat

    // How many of the three standard descriptors are free.
    ghost function FreeBelow3(): nat
      reads this
    {
      (if 0 in table then 0 else 1) + (if 1 in table then 0 else 1) + (if 2 in table then 0 else 1)
    }

    /** dup: the lowest free descriptor, without the close-on-exec flag, if there is one. */
    method Dup(fd: nat) returns (r: int)
      modifies this`table
      ensures r == -1 <==> fd !in old(table) || forall j: nat :: j < limit ==> j in old(table)
      ensures r == -1 ==> table == old(table)
      ensures r != -1 ==> fd in old(table) && 0 <= r < limit && r !in old(table) &&
                          (forall j: nat :: j < r ==> j in old(table)) &&
                          table == old(table)[r := Entry(old(table)[fd].file, false)]
    {
      r := -1;
      if fd in table {
        r := LowestFree(table.Keys, 0, limit);
        if r != -1 {
          table := table[r := Entry(table[fd].file, false)];
        }
      }
    }

    method Close(fd: nat)
      modifies this`table
      ensures table == old(table) - {fd}
    {
      table := table - {fd};
    }

    /** dup2: closes the target first; the kernel may refuse. */
    method Dup2(fd: nat, target: nat, refuse: bool) returns (ok: bool)
      modifies this`table
      ensures ok <==> fd in old(table) && !refuse
      ensures !ok ==> table == old(table)
      ensures ok && fd == target ==> table == old(table)
      ensures ok && fd != target ==> table == old(table)[target := Entry(old(table)[fd].file, false)]
    {
      ok := fd in table && !refuse;
      if ok && fd != target {
        table := table[target := Entry(table[fd].file, false)];
      }
    }

    /**
     dup that stays clear of the standard descriptors: those it gets are held until
     one from three on comes, then freed. It fails just when none is free there. Nothing
     else changes, and on failure everything that was open still is, with those held.
     */
    method SafeDup(fd: nat) returns (r: int)
      requires fd in table
      modifies this`table
      ensures r == -1 <==> forall j: nat :: 3 <= j < limit ==> j in old(table)
      ensures r == -1 ==> forall k :: k in old(table) ==> k in table && table[k] == old(table)[k]
      ensures r == -1 ==> forall j: nat :: j in table <==> j in old(table) || (j < 3 && j < limit)
      ensures r != -1 ==> 3 <= r < limit && r !in old(table) && (forall j: nat :: 3 <= j < r ==> j in old(table)) &&
                          table == old(table)[r := Entry(old(table)[fd].file, false)]
      decreases FreeBelow3()
    {
      var newFd := Dup(fd);
      if newFd == -1 || newFd >= 3 {
        assert newFd != -1 ==> 3 <= newFd < limit && newFd !in old(table);
        return newFd;
      }
      ghost var held := table;
      assert forall j: nat :: 3 <= j ==> (j in held <==> j in old(table));
      r := SafeDup(fd);
      if r != -1 {
        assert 3 <= r < limit && r !in held;
        Close(newFd);
        forall j: nat | 3 <= j < r ensures j in old(table) {
          assert j in held;
        }
        assert table == old(table)[r := Entry(old(table)[fd].file, false)];
      }
    }

    /**
     The child's descriptors after the redirections: 0, 1 and 2 are what the caller
     named, however it repeated or permuted them, and survive exec; the named
     descriptors are closed and no other is touched. It takes three free descriptors
     from three on and a kernel that refuses nothing; without the first nothing is
     closed. A failure is reported while the failure descriptor is still open.
     */
    method Redirect(stdFds: seq<nat>, failureFd: nat, refuse: seq<bool>) returns (r: Outcome)
      requires |stdFds| == 3 && |refuse| == 3
      requires forall i :: 0 <= i < 3 ==> stdFds[i] in table
      requires failureFd >= 3 && failureFd in table && failureFd !in stdFds
      modifies this`table
      ensures failureFd in table && table[failureFd] == old(table)[failureFd]
      ensures r.Redirected? <==> |Free(old(table), limit)| >= 3 && true !in refuse
      ensures r == Failed("dup") <==> |Free(old(table), limit)| < 3
      ensures r == Failed("dup") ==> forall k :: k in old(table) ==> k in table && table[k] == old(table)[k]
      ensures r.Redirected? ==> table == Redirection(old(table), stdFds)
    {
      hide WithTemps, Stage, Free;
      ghost var before := table;
      var tmpFds := new nat[3];
      var i: nat := 0;
      assert tmpFds[..0] == [];
      NoTemps(before, stdFds);
      while i < 3
        invariant i <= 3 && Fresh(tmpFds[..i], before) && table == WithTemps(before, stdFds, tmpFds[..i])
        invariant |Free(table, limit)| + i == |Free(before, limit)|
      {
        ghost var t := tmpFds[..i];
        TempsKeep(before, stdFds, t);
        ghost var had := table;
        var newFd := SafeDup(stdFds[i]);
        DupTakes(had, table, limit, newFd);
        if newFd == -1 {
          return Failed("dup");
        }
        AddTemp(before, stdFds, t, newFd);
        tmpFds[i] := newFd;
        assert tmpFds[..i + 1] == t + [newFd];
        i := i + 1;
      }
      assert tmpFds[..3] == tmpFds[..];
      ghost var open := table;
      i := 0;
      while i < 3
        invariant i <= 3 && Fresh(tmpFds[..], before) && open == WithTemps(before, stdFds, tmpFds[..])
        invariant table == open - Members(stdFds[..i])
      {
        Close(stdFds[i]);
        assert Members(stdFds[..i + 1]) == Members(stdFds[..i]) + {stdFds[i]};
        i := i + 1;
      }
      assert stdFds[..3] == stdFds;
      ClosedIsStage(before, stdFds, tmpFds[..]);
      i := 0;
      while i < 3
        invariant i <= 3 && Fresh(tmpFds[..], before) && table == Stage(before, stdFds, tmpFds[..], i)
        invariant true !in refuse[..i]
      {
        FailureKept(before, stdFds, tmpFds[..], i, failureFd);
        InstallOne(before, stdFds, tmpFds[..], i);
        var ok := Dup2(tmpFds[i], i, refuse[i]);
        if !ok {
          return Failed("dup2");
        }
        Close(tmpFds[i]);
        i := i + 1;
      }
      FailureKept(before, stdFds, tmpFds[..], 3, failureFd);
      LastStage(before, stdFds, tmpFds[..]);
      r := Redirected;
    }
  }

  // A duplicate takes one of the free descriptors; it fails when there is none.
  lemma DupTakes(had: map<nat, Entry>, has: map<nat, Entry>, limit: nat, r: int)
    requires r == -1 ==> forall j: nat :: 3 <= j < limit ==> j in had
    requires r != -1 ==> 3 <= r < limit && r !in had && has.Keys == had.Keys + {r}
    ensures if r == -1 then |Free(had, limit)| == 0 else |Free(had, limit)| == |Free(has, limit)| + 1
  {
    if r == -1 {
      assert Free(had, limit) == {};
    } else {
      assert Free(had, limit) == Free(has, limit) + {r};
    }
  }

  ghost function Members(s: seq<nat>): set<nat> { set x | x in s }

  // What a standard descriptor is moved to.
  function Moved(before: map<nat, Entry>, fd: nat): Entry
    requires fd in before
  {
    Entry(before[fd].file, false)
  }

  /** The table the redirections must leave. */
  function Redirection(before: map<nat, Entry>, stdFds: seq<nat>): map<nat, Entry>
    requires |stdFds| == 3 && forall i :: 0 <= i < 3 ==> stdFds[i] in before
  {
    map k | k in before.Keys + {0, 1, 2} && (k < 3 || k !in stdFds) ::
      if k < 3 then Moved(before, stdFds[k]) else before[k]
  }

  /**
   The standard descriptors are the files named and stay open over exec; of the others
   those named are gone and the rest are as they were.
   */
  lemma RedirectionIs(before: map<nat, Entry>, stdFds: seq<nat>, k: nat)
    requires |stdFds| == 3 && forall i :: 0 <= i < 3 ==> stdFds[i] in before
    ensures var after := Redirection(before, stdFds);
            if k < 3 then k in after && after[k].file == before[stdFds[k]].file && !after[k].cloexec
            else (k in after <==> k in before && k !in stdFds) && (k in after ==> after[k] == before[k])
  {
  }

  /** Temporaries are new, from three on and not shared. */
  ghost predicate Fresh(tmps: seq<nat>, before: map<nat, Entry>) {
    && (forall i :: 0 <= i < |tmps| ==> tmps[i] >= 3 && tmps[i] !in before)
    && (forall i, j :: 0 <= i < j < |tmps| ==> tmps[i] != tmps[j])
  }

  // The table with temporaries for the first standard descriptors.
  ghost function WithTemps(before: map<nat, Entry>, stdFds: seq<nat>, tmps: seq<nat>): map<nat, Entry>
    requires |tmps| <= |stdFds| == 3 && forall i :: 0 <= i < 3 ==> stdFds[i] in before
  {
    map k | k in before.Keys + Members(tmps) ::
      if k in before then before[k] else Moved(before, stdFds[Index(tmps, k)])
  }

  // The place of a temporary.
  ghost function Index(tmps: seq<nat>, k: nat): (i: nat)
    requires k in tmps
    ensures i < |tmps| && tmps[i] == k
  {
    var i: nat :| i < |tmps| && tmps[i] == k;
    i
  }

  lemma NoTemps(before: map<nat, Entry>, stdFds: seq<nat>)
    requires |stdFds| == 3 && forall i :: 0 <= i < 3 ==> stdFds[i] in before
    ensures WithTemps(before, stdFds, []) == before
  {
  }

  lemma TempsKeep(before: map<nat, Entry>, stdFds: seq<nat>, tmps: seq<nat>)
    requires |tmps| <= |stdFds| == 3 && forall i :: 0 <= i < 3 ==> stdFds[i] in before
    ensures forall k :: k in before ==>
              k in WithTemps(before, stdFds, tmps) && WithTemps(before, stdFds, tmps)[k] == before[k]
  {
  }

  lemma AddTemp(before: map<nat, Entry>, stdFds: seq<nat>, tmps: seq<nat>, fd: nat)
    requires |tmps| < |stdFds| == 3 && forall i :: 0 <= i < 3 ==> stdFds[i] in before
    requires Fresh(tmps, before) && fd >= 3 && fd !in WithTemps(before, stdFds, tmps)
    ensures Fresh(tmps + [fd], before)
    ensures WithTemps(before, stdFds, tmps + [fd]) ==
            WithTemps(before, stdFds, tmps)[fd := Moved(before, stdFds[|tmps|])]
  {
    hide Index;
    assert fd !in tmps;
    assert Members(tmps + [fd]) == Members(tmps) + {fd};
    forall k | k in tmps + [fd] ensures Index(tmps + [fd], k) == if k == fd then |tmps| else Index(tmps, k) {
      IndexSnoc(tmps, fd, k);
    }
  }

  lemma IndexSnoc(tmps: seq<nat>, fd: nat, k: nat)
    requires fd !in tmps && k in tmps + [fd]
    requires forall i, j :: 0 <= i < j < |tmps| ==> tmps[i] != tmps[j]
    ensures Index(tmps + [fd], k) == if k == fd then |tmps| else Index(tmps, k)
  {
    var more := tmps + [fd];
    var i := Index(more, k);
    if k != fd {
      assert i < |tmps| && tmps[i] == k;
      assert tmps[Index(tmps, k)] == k;
    }
  }

  /** The table when i of the standard descriptors have been installed. */
  ghost function Stage(before: map<nat, Entry>, stdFds: seq<nat>, tmps: seq<nat>, i: nat): map<nat, Entry>
    requires |tmps| == |stdFds| == 3 && i <= 3 && forall i :: 0 <= i < 3 ==> stdFds[i] in before
  {
    var open := WithTemps(before, stdFds, tmps);
    map k | k in open.Keys + {0, 1, 2} && (k < i || (k in open && k !in stdFds && k !in tmps[..i])) ::
      if k < i then Moved(before, stdFds[k]) else open[k]
  }

  lemma ClosedIsStage(before: map<nat, Entry>, stdFds: seq<nat>, tmps: seq<nat>)
    requires |tmps| == |stdFds| == 3 && forall i :: 0 <= i < 3 ==> stdFds[i] in before
    ensures WithTemps(before, stdFds, tmps) - Members(stdFds) == Stage(before, stdFds, tmps, 0)
  {
  }

  /** One more: the temporary is there to install, and gone afterwards. */
  lemma InstallOne(before: map<nat, Entry>, stdFds: seq<nat>, tmps: seq<nat>, i: nat)
    requires |tmps| == |stdFds| == 3 && i < 3 && forall i :: 0 <= i < 3 ==> stdFds[i] in before
    requires Fresh(tmps, before)
    ensures var t := Stage(before, stdFds, tmps, i);
            tmps[i] >= 3 && tmps[i] in t && t[tmps[i]] == Moved(before, stdFds[i]) &&
            t[i := Moved(before, stdFds[i])] - {tmps[i]} == Stage(before, stdFds, tmps, i + 1)
  {
    TempInStage(before, stdFds, tmps, i);
    hide WithTemps, Index;
    assert tmps[..i + 1] == tmps[..i] + [tmps[i]];
  }

  // A temporary is there until it is installed.
  lemma TempInStage(before: map<nat, Entry>, stdFds: seq<nat>, tmps: seq<nat>, i: nat)
    requires |tmps| == |stdFds| == 3 && i < 3 && forall i :: 0 <= i < 3 ==> stdFds[i] in before
    requires Fresh(tmps, before)
    ensures tmps[i] in WithTemps(before, stdFds, tmps)
    ensures tmps[i] in Stage(before, stdFds, tmps, i)
    ensures Stage(before, stdFds, tmps, i)[tmps[i]] == Moved(before, stdFds[i])
  {
    assert tmps[i] in Members(tmps);
    assert Index(tmps, tmps[i]) == i;
    assert tmps[i] !in tmps[..i] && tmps[i] !in stdFds;
  }

  lemma FailureKept(before: map<nat, Entry>, stdFds: seq<nat>, tmps: seq<nat>, i: nat, fd: nat)
    requires |tmps| == |stdFds| == 3 && i <= 3 && forall i :: 0 <= i < 3 ==> stdFds[i] in before
    requires Fresh(tmps, before) && fd >= 3 && fd in before && fd !in stdFds
    ensures fd in Stage(before, stdFds, tmps, i) && Stage(before, stdFds, tmps, i)[fd] == before[fd]
  {
  }

  lemma LastStage(before: map<nat, Entry>, stdFds: seq<nat>, tmps: seq<nat>)
    requires |tmps| == |stdFds| == 3 && forall i :: 0 <= i < 3 ==> stdFds[i] in before
    requires Fresh(tmps, before)
    ensures Stage(before, stdFds, tmps, 3) == Redirection(before, stdFds)
  {
    assert tmps[..3] == tmps;
  }
}
