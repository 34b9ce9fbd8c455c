/** What the slot loop of the greedy assigner picks.  The lemmas on
    `PicksFrom` carry the picks `acc` made before and are used with
    `acc == []`, which is `Picks`. */
module GreedySlot {
  import opened Schema
  import opened Greedy

  /** Number of picks of the `for _ in range(k)` loop over a pool of `n`:
      none when `k <= 0`, `k` while the pool lasts, otherwise the whole pool
      and a final `None`. */
  function Wanted(k: int, n: nat): nat {
    if k <= 0 then 0 else if k <= n then k else n + 1
  }

  /** No employee occurs twice among the picks. */
  predicate DistinctPicks(picks: seq<Option<nat>>) {
    forall i, i' :: 0 <= i < i' < |picks| && picks[i].Some? && picks[i'].Some? ==> picks[i].value != picks[i'].value
  }

  /** `candidates.remove(chosen)` keeps only candidates, and on a pool without
      repeats it drops exactly `chosen`. */
  lemma RemoveAtMembers(pool: seq<nat>, j: nat)
    requires j < |pool|
    ensures forall x :: x in RemoveAt(pool, j) ==> x in pool
    ensures Distinct(pool) ==> pool[j] !in RemoveAt(pool, j) && Distinct(RemoveAt(pool, j))
    ensures Distinct(pool) ==> forall x :: x in pool && x != pool[j] ==> x in RemoveAt(pool, j)
  {
    var r := RemoveAt(pool, j);
    forall x | x in r ensures x in pool {
      var i :| 0 <= i < |r| && r[i] == x;
      if i < j {
        assert r[i] == pool[i];
      } else {
        assert r[i] == pool[i + 1];
      }
    }
    if Distinct(pool) {
      DistinctIff(pool);
      DistinctIff(r);
      forall i | 0 <= i < |r| ensures r[i] != pool[j] {
        if i < j {
          assert r[i] == pool[i];
        } else {
          assert r[i] == pool[i + 1];
        }
      }
      forall x | x in pool && x != pool[j] ensures x in r {
        var i :| 0 <= i < |pool| && pool[i] == x;
        if i < j {
          assert r[i] == x;
        } else {
          assert r[i - 1] == x;
        }
      }
    }
  }

  /** The loop adds `Wanted(k, |pool|)` picks to the earlier ones. */
  lemma {:induction false} PicksFromCount(acc: seq<Option<nat>>, pool: seq<nat>, load: seq<int>, k: int)
    requires InRange(pool, |load|)
    ensures |PicksFrom(acc, pool, load, k)| == |acc| + Wanted(k, |pool|)
    decreases |pool|, if k > 0 then k else 0
  {
    if k > 0 && pool != [] {
      var j := FirstMinIndex(pool, load);
      var acc', pool' := acc + [Some(pool[j])], RemoveAt(pool, j);
      PicksFromCons(acc, pool, load, k, j, acc', pool', k - 1);
      PicksFromCount(acc', pool', load, k - 1);
    }
  }

  /** The loop keeps the earlier picks. */
  lemma {:induction false} PicksFromKeeps(acc: seq<Option<nat>>, pool: seq<nat>, load: seq<int>, k: int)
    requires InRange(pool, |load|)
    ensures |acc| <= |PicksFrom(acc, pool, load, k)|
    ensures forall i :: 0 <= i < |acc| ==> PicksFrom(acc, pool, load, k)[i] == acc[i]
    decreases |pool|, if k > 0 then k else 0
  {
    if k > 0 && pool != [] {
      var j := FirstMinIndex(pool, load);
      var acc', pool' := acc + [Some(pool[j])], RemoveAt(pool, j);
      PicksFromCons(acc, pool, load, k, j, acc', pool', k - 1);
      PicksFromKeeps(acc', pool', load, k - 1);
    }
  }

  /** Every new pick but one names a pool member; the `None` pick comes
      exactly after the whole pool was taken. */
  lemma {:induction false} PicksFromPicks(acc: seq<Option<nat>>, pool: seq<nat>, load: seq<int>, k: int)
    requires InRange(pool, |load|)
    ensures forall i :: |acc| <= i < |PicksFrom(acc, pool, load, k)| ==>
              (PicksFrom(acc, pool, load, k)[i].None? <==> i == |acc| + |pool|) &&
              (PicksFrom(acc, pool, load, k)[i].Some? ==> PicksFrom(acc, pool, load, k)[i].value in pool)
    decreases |pool|, if k > 0 then k else 0
  {
    if k > 0 && pool != [] {
      var j := FirstMinIndex(pool, load);
      var acc', pool' := acc + [Some(pool[j])], RemoveAt(pool, j);
      PicksFromCons(acc, pool, load, k, j, acc', pool', k - 1);
      var r := PicksFrom(acc', pool', load, k - 1);
      assert PicksFrom(acc, pool, load, k) == r;
      PicksFromPicks(acc', pool', load, k - 1);
      PicksFromKeeps(acc', pool', load, k - 1);
      RemoveAtMembers(pool, j);
      assert r[|acc|] == Some(pool[j]);
    }
  }

  /** A pool without repeats, disjoint from the earlier picks, gives picks
      without repeats: nobody is picked twice for one slot. */
  lemma {:induction false} PicksFromDistinct(acc: seq<Option<nat>>, pool: seq<nat>, load: seq<int>, k: int)
    requires InRange(pool, |load|) && Distinct(pool) && DistinctPicks(acc)
    requires forall i :: 0 <= i < |acc| && acc[i].Some? ==> acc[i].value !in pool
    ensures DistinctPicks(PicksFrom(acc, pool, load, k))
    decreases |pool|, if k > 0 then k else 0
  {
    if k <= 0 {
    } else if pool == [] {
      assert DistinctPicks(acc + [None]);
    } else {
      var j := FirstMinIndex(pool, load);
      var acc', pool' := acc + [Some(pool[j])], RemoveAt(pool, j);
      PicksFromCons(acc, pool, load, k, j, acc', pool', k - 1);
      RemoveAtMembers(pool, j);
      assert DistinctPicks(acc');
      PicksFromDistinct(acc', pool', load, k - 1);
    }
  }

  /** Every new pick had the fewest hours among the candidates not picked
      before it: the loop's `min(candidates, key=...)`. */
  lemma {:induction false} PicksFromLeastLoaded(acc: seq<Option<nat>>, pool: seq<nat>, load: seq<int>, k: int)
    requires InRange(pool, |load|) && Distinct(pool)
    ensures forall i, m, m' :: |acc| <= i < |PicksFrom(acc, pool, load, k)| && 0 <= m < |pool| && 0 <= m' < |pool| &&
                               PicksFrom(acc, pool, load, k)[i] == Some(pool[m']) &&
                               Some(pool[m]) !in PicksFrom(acc, pool, load, k)[..i]
              ==> load[pool[m']] <= load[pool[m]]
    decreases |pool|, if k > 0 then k else 0
  {
    if k > 0 && pool != [] {
      var j := FirstMinIndex(pool, load);
      var c := pool[j];
      var acc', pool' := acc + [Some(c)], RemoveAt(pool, j);
      PicksFromCons(acc, pool, load, k, j, acc', pool', k - 1);
      RemoveAtMembers(pool, j);
      PicksFromLeastLoaded(acc', pool', load, k - 1);
      PicksFromPicks(acc', pool', load, k - 1);
      PicksFromKeeps(acc', pool', load, k - 1);
      var r := PicksFrom(acc, pool, load, k);
      assert r[|acc|] == Some(c);
      forall i, m, m' | |acc| <= i < |r| && 0 <= m < |pool| && 0 <= m' < |pool| &&
                        r[i] == Some(pool[m']) && Some(pool[m]) !in r[..i]
        ensures load[pool[m']] <= load[pool[m]]
      {
        if i > |acc| {
          assert r[..i][|acc|] == Some(c);
          assert pool[m] in pool' && pool[m'] in pool';
          var n :| 0 <= n < |pool'| && pool'[n] == pool[m];
          var n' :| 0 <= n' < |pool'| && pool'[n'] == pool[m'];
        }
      }
    }
  }

  /** With picks that repeat nobody, the hours afterwards: a picked employee
      gains exactly `hours`, everybody else keeps what they had. */
  lemma {:induction false} AddHoursDelta(load: seq<int>, picks: seq<Option<nat>>, hours: nat)
    requires DistinctPicks(picks)
    requires forall i :: 0 <= i < |picks| && picks[i].Some? ==> picks[i].value < |load|
    ensures forall x :: 0 <= x < |load| ==>
              AddHours(load, picks, hours)[x] == load[x] + if Some(x) in picks then hours else 0
  {
    if picks != [] {
      var front := picks[..|picks| - 1];
      AddHoursDelta(load, front, hours);
      forall x | 0 <= x < |load| ensures Some(x) in picks <==> Some(x) in front || picks[|picks| - 1] == Some(x) {
        assert picks == front + [picks[|picks| - 1]];
      }
      if picks[|picks| - 1].Some? {
        var c := picks[|picks| - 1].value;
        assert Some(c) !in front;
      }
    }
  }

  /** `ToEntries` turns each pick into its entry, position by position. */
  lemma {:induction false} ToEntriesIndex(table: seq<Info>, shift: string, picks: seq<Option<nat>>)
    ensures forall i :: 0 <= i < |picks| ==> ToEntries(table, shift, picks)[i] == EntryOf(table, shift, picks[i])
  {
    if picks != [] {
      ToEntriesIndex(table, shift, picks[..|picks| - 1]);
    }
  }

  // ---------------------------------------------------------------------
  // One task
  // ---------------------------------------------------------------------

  /** The entries one task appends to its day's list. */
  function SlotEntries(table: seq<Info>, load: seq<int>, task: Task, minStaff: int, total: int): seq<Entry>
    requires |table| == |load|
  {
    ToEntries(table, task.shift, SlotPicks(table, load, task, minStaff, total))
  }

  /** The picks of one task: one per pick the loop makes, an unstaffed pick
      exactly at position `|pool|`, otherwise distinct members of the pool,
      each with the fewest hours among the candidates not yet picked. */
  lemma SlotPicksFacts(table: seq<Info>, load: seq<int>, task: Task, minStaff: int, total: int)
    requires |table| == |load|
    ensures var pool := Pool(table, load, task, total);
            var picks := SlotPicks(table, load, task, minStaff, total);
            && |picks| == (if pool == [] then 1 else Wanted(minStaff, |pool|))
            && (forall i :: 0 <= i < |picks| ==> (picks[i].None? <==> i == |pool|))
            && (forall i :: 0 <= i < |picks| && picks[i].Some? ==> picks[i].value in pool)
            && DistinctPicks(picks)
  {
    var pool := Pool(table, load, task, total);
    if pool != [] {
      DistinctIff(pool);
      PicksFromCount([], pool, load, minStaff);
      PicksFromPicks([], pool, load, minStaff);
      PicksFromDistinct([], pool, load, minStaff);
    }
  }

  /** The pick at position `i` has no more hours than the candidate
      `pool[m]` if that one was not picked before it. */
  lemma PickLeast(pool: seq<nat>, load: seq<int>, k: int, i: nat, m: nat, m': nat)
    requires InRange(pool, |load|) && Distinct(pool)
    requires var r := Picks(pool, load, k);
             && i < |r| && m < |pool| && m' < |pool|
             && r[i] == Some(pool[m']) && Some(pool[m]) !in r[..i]
    ensures load[pool[m']] <= load[pool[m]]
  {
    PicksFromLeastLoaded([], pool, load, k);
  }

  /** A task appends one entry when nobody is eligible, otherwise one per
      pick: `min_staff` of them while candidates last, and when they run out
      all of them and one unstaffed entry.  A `min_staff` of zero or less
      with candidates appends nothing. */
  lemma SlotEntriesCount(table: seq<Info>, load: seq<int>, task: Task, minStaff: int, total: int)
    requires |table| == |load|
    ensures var pool := Pool(table, load, task, total);
            var n := |SlotEntries(table, load, task, minStaff, total)|;
            && n == (if pool == [] then 1 else if minStaff <= 0 then 0 else if minStaff <= |pool| then minStaff else |pool| + 1)
            && n <= (if minStaff > 1 then minStaff else 1)
            && (n >= 1 <==> pool == [] || minStaff >= 1)
  {
    SlotPicksFacts(table, load, task, minStaff, total);
  }

  /** Every appended entry is for this task's shift; it is unstaffed exactly
      at position `|candidates|`, so an unstaffed entry is appended exactly
      when the pool is empty or runs out before `min_staff` picks, and it is
      the last one. */
  lemma SlotEntriesUnstaffed(table: seq<Info>, load: seq<int>, task: Task, minStaff: int, total: int)
    requires |table| == |load|
    ensures var pool := Pool(table, load, task, total);
            var es := SlotEntries(table, load, task, minStaff, total);
            && (forall i :: 0 <= i < |es| ==> es[i].shift == task.shift)
            && (forall i :: 0 <= i < |es| ==> (es[i].employee.None? <==> i == |pool|))
            && ((exists i :: 0 <= i < |es| && es[i].employee.None?) <==> pool == [] || minStaff > |pool|)
            && (forall i :: 0 <= i < |es| && es[i].employee.None? ==> i == |es| - 1)
  {
    var pool := Pool(table, load, task, total);
    var picks := SlotPicks(table, load, task, minStaff, total);
    var es := SlotEntries(table, load, task, minStaff, total);
    SlotPicksFacts(table, load, task, minStaff, total);
    ToEntriesIndex(table, task.shift, picks);
    if pool == [] || minStaff > |pool| {
      assert es[|pool|].employee.None?;
    }
  }

  /** Every employee a task names is a table row that may take it: available
      that day and for that shift, and below its target hours when the
      task's candidates were listed. */
  lemma SlotEntriesEligible(table: seq<Info>, load: seq<int>, task: Task, minStaff: int, total: int)
    requires |table| == |load|
    ensures var es := SlotEntries(table, load, task, minStaff, total);
            forall i :: 0 <= i < |es| && es[i].employee.Some? ==>
              exists x :: 0 <= x < |table| && table[x].name == es[i].employee.value && Eligible(table[x], load[x], task, total)
  {
    var pool := Pool(table, load, task, total);
    var picks := SlotPicks(table, load, task, minStaff, total);
    var es := SlotEntries(table, load, task, minStaff, total);
    SlotPicksFacts(table, load, task, minStaff, total);
    ToEntriesIndex(table, task.shift, picks);
    forall i | 0 <= i < |es| && es[i].employee.Some?
      ensures exists x :: 0 <= x < |table| && table[x].name == es[i].employee.value && Eligible(table[x], load[x], task, total)
    {
      var x := picks[i].value;
      assert x in pool;
    }
  }

  /** An employee's name determines its row. */
  lemma NameRow(table: seq<Info>, x: nat, y: nat)
    requires NamesUnique(table) && x < |table| && y < |table|
    ensures table[x].name == table[y].name <==> x == y
  {
    if x < y {
      assert table[x].name != table[y].name;
    } else if y < x {
      assert table[y].name != table[x].name;
    }
  }

  /** Nobody is named twice for one task (the employee table has one row
      per name). */
  lemma SlotEntriesDistinct(table: seq<Info>, load: seq<int>, task: Task, minStaff: int, total: int)
    requires |table| == |load| && NamesUnique(table)
    ensures var es := SlotEntries(table, load, task, minStaff, total);
            forall i, i' :: 0 <= i < i' < |es| && es[i].employee.Some? ==> es[i].employee != es[i'].employee
  {
    var pool := Pool(table, load, task, total);
    var picks := SlotPicks(table, load, task, minStaff, total);
    var es := SlotEntries(table, load, task, minStaff, total);
    SlotPicksFacts(table, load, task, minStaff, total);
    ToEntriesIndex(table, task.shift, picks);
    forall i, i' | 0 <= i < i' < |es| && es[i].employee.Some?
      ensures es[i].employee != es[i'].employee
    {
      if picks[i'].Some? {
        var x, y := picks[i].value, picks[i'].value;
        assert x in pool && y in pool;
        NameRow(table, x, y);
      }
    }
  }

  /** Each named employee had, when this task began, no more hours than any
      candidate not named before it in this task. */
  lemma SlotEntriesLeastLoaded(table: seq<Info>, load: seq<int>, task: Task, minStaff: int, total: int)
    requires |table| == |load| && NamesUnique(table)
    ensures var es := SlotEntries(table, load, task, minStaff, total);
            forall i, x, y :: 0 <= i < |es| && 0 <= x < |table| && 0 <= y < |table| &&
                              es[i].employee == Some(table[x].name) &&
                              Eligible(table[y], load[y], task, total) &&
                              Entry(task.shift, Some(table[y].name)) !in es[..i]
              ==> load[x] <= load[y]
  {
    var pool := Pool(table, load, task, total);
    var picks := SlotPicks(table, load, task, minStaff, total);
    var es := SlotEntries(table, load, task, minStaff, total);
    SlotPicksFacts(table, load, task, minStaff, total);
    ToEntriesIndex(table, task.shift, picks);
    forall i, x, y | 0 <= i < |es| && 0 <= x < |table| && 0 <= y < |table| &&
                     es[i].employee == Some(table[x].name) &&
                     Eligible(table[y], load[y], task, total) &&
                     Entry(task.shift, Some(table[y].name)) !in es[..i]
      ensures load[x] <= load[y]
    {
      var x' := picks[i].value;
      assert x' in pool;
      NameRow(table, x, x');
      assert y in pool;
      var m :| 0 <= m < |pool| && pool[m] == y;
      var m' :| 0 <= m' < |pool| && pool[m'] == x;
      forall h | 0 <= h < i ensures picks[..i][h] != Some(y) {
        assert es[..i][h] == es[h];
      }
      DistinctIff(pool);
      PickLeast(pool, load, minStaff, i, m, m');
    }
  }

  /** The hours after a task: every employee it names gains the shift's
      hours once, everybody else keeps theirs. */
  lemma SlotStepHours(table: seq<Info>, st: State, task: Task, minStaff: int, total: int)
    requires |table| == |st.load| && NamesUnique(table)
    ensures var es := SlotEntries(table, st.load, task, minStaff, total);
            var r := SlotStep(table, st, task, minStaff, total);
            forall x :: 0 <= x < |table| ==>
              r.load[x] == st.load[x] + if Entry(task.shift, Some(table[x].name)) in es then task.hours else 0
  {
    var pool := Pool(table, st.load, task, total);
    var picks := SlotPicks(table, st.load, task, minStaff, total);
    var es := SlotEntries(table, st.load, task, minStaff, total);
    SlotPicksFacts(table, st.load, task, minStaff, total);
    ToEntriesIndex(table, task.shift, picks);
    AddHoursDelta(st.load, picks, task.hours);
    forall x | 0 <= x < |table|
      ensures Entry(task.shift, Some(table[x].name)) in es <==> Some(x) in picks
    {
      if Entry(task.shift, Some(table[x].name)) in es {
        var i :| 0 <= i < |es| && es[i] == Entry(task.shift, Some(table[x].name));
        assert picks[i].value in pool;
        NameRow(table, x, picks[i].value);
      }
      if Some(x) in picks {
        var i :| 0 <= i < |picks| && picks[i] == Some(x);
        assert es[i] == Entry(task.shift, Some(table[x].name));
      }
    }
  }

  /** A task appends `SlotEntries` to its own day and leaves every other
      day's list as it was. */
  lemma SlotStepSchedule(table: seq<Info>, st: State, task: Task, minStaff: int, total: int)
    requires |table| == |st.load|
    ensures var r := SlotStep(table, st, task, minStaff, total);
            && Lookup(r.schedule, task.day) == Lookup(st.schedule, task.day) + SlotEntries(table, st.load, task, minStaff, total)
            && forall d :: d != task.day ==> Lookup(r.schedule, d) == Lookup(st.schedule, d)
  {
  }
}
