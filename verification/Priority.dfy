/** The priority accumulator: a greedy scheduler over a byte budget in which
    whatever waits grows more important. */
module Priority {
  datatype PriorityEntry = PriorityEntry(base: real, accumulated: real)

  // ---------- one drain ----------

  /** Every entity once, no entity before one of higher priority. Ties may come
      in any order, since the order of the hash map is anything. */
  ghost predicate IsOrder<Id(!new)>(entries: map<Id, PriorityEntry>, order: seq<Id>) {
    && (forall i, j :: 0 <= i < j < |order| ==> order[i] != order[j])
    && (forall k :: k in order <==> k in entries)
    && forall i, j :: 0 <= i < j < |order| ==> entries[order[i]].accumulated >= entries[order[j]].accumulated
  }

  /** Those chosen so far, and the bytes left. */
  datatype Choice<Id> = Choice(selected: seq<Id>, remaining: nat)

  function Greedy<Id>(order: seq<Id>, sizes: Id -> nat, budget: nat): Choice<Id> {
    if order == [] then Choice([], budget)
    else
      var c, id := Greedy(order[..|order| - 1], sizes, budget), order[|order| - 1];
      if sizes(id) > c.remaining then c else Choice(c.selected + [id], c.remaining - sizes(id))
  }

  function Reset<Id(==)>(entries: map<Id, PriorityEntry>, ids: seq<Id>): map<Id, PriorityEntry> {
    map k | k in entries :: if k in ids then entries[k].(accumulated := 0.0) else entries[k]
  }

  function Grew(entry: PriorityEntry, dt: real): PriorityEntry {
    entry.(accumulated := entry.accumulated + entry.base * dt)
  }

  function Grown<Id(==)>(entries: map<Id, PriorityEntry>, dt: real): map<Id, PriorityEntry> {
    map k | k in entries :: Grew(entries[k], dt)
  }

  ghost predicate Drains<Id(!new)>(entries: map<Id, PriorityEntry>, budget: nat, sizes: Id -> nat,
                                   entries': map<Id, PriorityEntry>, selected: seq<Id>) {
    exists order :: IsOrder(entries, order) && selected == Greedy(order, sizes, budget).selected
                    && entries' == Reset(entries, selected)
  }

  class PriorityAccumulator<Id(==,!new)> {
    var entries: map<Id, PriorityEntry>

    constructor ()
      ensures entries == map[]
    {
      entries := map[];
    }

    method Register(id: Id, basePriority: real)
      modifies this
      ensures entries == old(entries)[id := PriorityEntry(basePriority, 0.0)]
    {
      entries := entries[id := PriorityEntry(basePriority, 0.0)];
    }

    method Unregister(id: Id)
      modifies this
      ensures entries == old(entries) - {id}
    {
      entries := entries - {id};
    }

    method Accumulate(dt: real)
      modifies this
      ensures entries == Grown(old(entries), dt)
    {
      var left := entries.Keys;
      GrowEnds(entries, dt);
      while left != {}
        invariant left <= old(entries).Keys && entries == GrownExcept(old(entries), dt, left)
        decreases |left|
      {
        hide *;
        var k :| k in left;
        GrowStep(old(entries), dt, left, k);
        left := left - {k};
        entries := entries[k := Grew(entries[k], dt)];
      }
    }

    method ApplyModifier(id: Id, modifier: real)
      modifies this
      ensures entries == if id in old(entries)
        then old(entries)[id := old(entries)[id].(accumulated := old(entries)[id].accumulated * modifier)]
        else old(entries)
    {
      if id in entries { entries := entries[id := entries[id].(accumulated := entries[id].accumulated * modifier)]; }
    }

    method DrainTop(budgetBytes: nat, sizeFn: Id -> nat) returns (selected: seq<Id>)
      modifies this
      ensures Drains(old(entries), budgetBytes, sizeFn, entries, selected)
    {
      hide *;
      var sorted := SortByPriority(entries);
      selected := [];
      var remaining := budgetBytes;
      GreedyStart(sorted, sizeFn, budgetBytes);
      for i := 0 to |sorted|
        invariant Choice(selected, remaining) == Greedy(sorted[..i], sizeFn, budgetBytes) && entries == old(entries)
      {
        GreedyStep(sorted, sizeFn, budgetBytes, i);
        var size := sizeFn(sorted[i]);
        if size <= remaining {
          remaining := remaining - size;
          selected := selected + [sorted[i]];
        }
      }
      assert sorted[..|sorted|] == sorted;
      ResetStart(entries, selected);
      for i := 0 to |selected|
        invariant entries == Reset(old(entries), selected[..i])
      {
        ResetStep(old(entries), selected, i);
        if selected[i] in entries { entries := entries[selected[i] := entries[selected[i]].(accumulated := 0.0)]; }
      }
      assert selected[..|selected|] == selected;
      DrainedBy(old(entries), budgetBytes, sizeFn, sorted);
    }
  }

  lemma GreedyStart<Id>(order: seq<Id>, sizes: Id -> nat, budget: nat)
    ensures Greedy(order[..0], sizes, budget) == Choice([], budget)
  {
  }

  lemma GreedyStep<Id>(order: seq<Id>, sizes: Id -> nat, budget: nat, i: nat)
    requires i < |order|
    ensures
      var c, size := Greedy(order[..i], sizes, budget), sizes(order[i]);
      Greedy(order[..i + 1], sizes, budget)
        == if size <= c.remaining then Choice(c.selected + [order[i]], c.remaining - size) else c
  {
    assert order[..i + 1][..i] == order[..i];
  }

  lemma ResetStart<Id>(entries: map<Id, PriorityEntry>, ids: seq<Id>)
    ensures Reset(entries, ids[..0]) == entries
  {
  }

  lemma ResetStep<Id>(entries: map<Id, PriorityEntry>, ids: seq<Id>, i: nat)
    requires i < |ids|
    ensures
      var m := Reset(entries, ids[..i]);
      Reset(entries, ids[..i + 1]) == if ids[i] in m then m[ids[i] := m[ids[i]].(accumulated := 0.0)] else m
  {
    assert forall k :: k in ids[..i + 1] <==> k in ids[..i] || k == ids[i];
  }

  lemma DrainedBy<Id(!new)>(entries: map<Id, PriorityEntry>, budget: nat, sizes: Id -> nat, order: seq<Id>)
    requires IsOrder(entries, order)
    ensures var selected := Greedy(order, sizes, budget).selected;
      Drains(entries, budget, sizes, Reset(entries, selected), selected)
  {
    hide IsOrder, Greedy, Reset;
  }

  function GrownExcept<Id(==)>(entries: map<Id, PriorityEntry>, dt: real, left: set<Id>): map<Id, PriorityEntry> {
    map k | k in entries :: if k in left then entries[k] else Grew(entries[k], dt)
  }

  lemma GrowStep<Id>(entries: map<Id, PriorityEntry>, dt: real, left: set<Id>, k: Id)
    requires k in left && left <= entries.Keys
    ensures
      var now := GrownExcept(entries, dt, left);
      k in now && GrownExcept(entries, dt, left - {k}) == now[k := Grew(now[k], dt)]
  {
    hide Grew;
  }

  lemma GrowEnds<Id>(entries: map<Id, PriorityEntry>, dt: real)
    ensures GrownExcept(entries, dt, entries.Keys) == entries
    ensures GrownExcept(entries, dt, {}) == Grown(entries, dt)
  {
  }

  /** Any order the library's sort could give. */
  method SortByPriority<Id(==,!new)>(entries: map<Id, PriorityEntry>) returns (order: seq<Id>)
    ensures IsOrder(entries, order)
  {
    order := [];
    var left := entries.Keys;
    while left != {}
      invariant PartOrder(entries, order, left)
      decreases |left|
    {
      HasGreatest(entries, left);
      var best :| best in left && forall k :: k in left ==> entries[best].accumulated >= entries[k].accumulated;
      OrderStep(entries, order, left, best);
      left := left - {best};
      order := order + [best];
    }
  }

  /** An order of all but `left`, none of which comes before any of it. */
  ghost predicate PartOrder<Id(!new)>(entries: map<Id, PriorityEntry>, order: seq<Id>, left: set<Id>) {
    && left <= entries.Keys
    && (forall i :: 0 <= i < |order| ==> order[i] in entries && order[i] !in left)
    && (forall k :: k in entries ==> k in left || k in order)
    && (forall i, j :: 0 <= i < j < |order| ==> order[i] != order[j])
    && (forall i, j :: 0 <= i < j < |order| ==> entries[order[i]].accumulated >= entries[order[j]].accumulated)
    && forall i, k :: 0 <= i < |order| && k in left ==> entries[order[i]].accumulated >= entries[k].accumulated
  }

  lemma OrderStep<Id(!new)>(entries: map<Id, PriorityEntry>, order: seq<Id>, left: set<Id>, best: Id)
    requires PartOrder(entries, order, left) && best in left
    requires forall k :: k in left ==> entries[best].accumulated >= entries[k].accumulated
    ensures PartOrder(entries, order + [best], left - {best})
  {
    var more := order + [best];
    assert more[|order|] == best;
    forall k | k in entries ensures k in left - {best} || k in more {
      if k in order { var i :| 0 <= i < |order| && order[i] == k; assert more[i] == k; }
    }
  }

  lemma {:induction false} HasGreatest<Id(!new)>(entries: map<Id, PriorityEntry>, keys: set<Id>)
    requires keys != {} && keys <= entries.Keys
    ensures exists best :: best in keys && forall k :: k in keys ==> entries[best].accumulated >= entries[k].accumulated
    decreases |keys|
  {
    var a :| a in keys;
    var rest := keys - {a};
    if rest == {} {
      assert keys == {a};
    } else {
      HasGreatest(entries, rest);
      var b :| b in rest && forall k :: k in rest ==> entries[b].accumulated >= entries[k].accumulated;
      var best := if entries[a].accumulated >= entries[b].accumulated then a else b;
      assert forall k :: k in keys ==> k == a || k in rest;
      assert forall k :: k in keys ==> entries[best].accumulated >= entries[k].accumulated;
    }
  }

  // ---------- what a drain selects ----------

  function TotalSize<Id>(ids: seq<Id>, sizes: Id -> nat): nat {
    if ids == [] then 0 else TotalSize(ids[..|ids| - 1], sizes) + sizes(ids[|ids| - 1])
  }

  lemma {:induction false} BudgetIsSplit<Id>(order: seq<Id>, sizes: Id -> nat, budget: nat)
    ensures var c := Greedy(order, sizes, budget); TotalSize(c.selected, sizes) + c.remaining == budget
    ensures forall k :: k in Greedy(order, sizes, budget).selected ==> k in order
  {
    if order != [] {
      var front, id := order[..|order| - 1], order[|order| - 1];
      BudgetIsSplit(front, sizes, budget);
      var c := Greedy(front, sizes, budget);
      assert (c.selected + [id])[..|c.selected|] == c.selected;
    }
  }

  /** An entity is chosen just when it fits beside what was chosen before it. */
  lemma {:induction false} ChosenIffItFits<Id(!new)>(order: seq<Id>, sizes: Id -> nat, budget: nat, i: nat)
    requires i < |order| && forall i, j :: 0 <= i < j < |order| ==> order[i] != order[j]
    ensures
      var before := Greedy(order[..i], sizes, budget).selected;
      order[i] in Greedy(order, sizes, budget).selected <==> TotalSize(before, sizes) + sizes(order[i]) <= budget
    decreases |order|
  {
    var front, id := order[..|order| - 1], order[|order| - 1];
    BudgetIsSplit(front, sizes, budget);
    var c := Greedy(front, sizes, budget);
    if i < |front| {
      ChosenIffItFits(front, sizes, budget, i);
      assert front[..i] == order[..i] && front[i] != id;
    } else {
      assert order[..i] == front;
      assert (c.selected + [id])[|c.selected|] == id;
    }
  }

  /** The first in the order is always chosen, if it fits at all. */
  lemma FirstIsChosen<Id(!new)>(order: seq<Id>, sizes: Id -> nat, budget: nat)
    requires order != [] && sizes(order[0]) <= budget && forall i, j :: 0 <= i < j < |order| ==> order[i] != order[j]
    ensures order[0] in Greedy(order, sizes, budget).selected
  {
    ChosenIffItFits(order, sizes, budget, 0);
  }

  // ---------- nobody starves ----------

  /** One tick: everyone grows, then the top of the queue is drained. */
  datatype Tick<!Id> = Tick(budget: nat, sizes: Id -> nat, selected: seq<Id>)

  ghost predicate Ticks<Id(!new)>(entries: map<Id, PriorityEntry>, dt: real, tick: Tick<Id>,
                                  entries': map<Id, PriorityEntry>) {
    Drains(Grown(entries, dt), tick.budget, tick.sizes, entries', tick.selected)
  }

  ghost predicate IsRun<Id(!new)>(dt: real, run: seq<map<Id, PriorityEntry>>, ticks: seq<Tick<Id>>) {
    |run| == |ticks| + 1 && forall t :: 0 <= t < |ticks| ==> Ticks(run[t], dt, ticks[t], run[t + 1])
  }

  /** The selected sizes never exceed the budget. */
  lemma WithinBudget<Id(!new)>(entries: map<Id, PriorityEntry>, dt: real, tick: Tick<Id>,
                               entries': map<Id, PriorityEntry>)
    requires Ticks(entries, dt, tick, entries')
    ensures TotalSize(tick.selected, tick.sizes) <= tick.budget
  {
    var order :| IsOrder(Grown(entries, dt), order) && tick.selected == Greedy(order, tick.sizes, tick.budget).selected
                 && entries' == Reset(Grown(entries, dt), tick.selected);
    BudgetIsSplit(order, tick.sizes, tick.budget);
  }

  /** In a tick that does not select `e`, someone else at least as urgent is. */
  lemma SomeoneAhead<Id(!new)>(entries: map<Id, PriorityEntry>, dt: real, tick: Tick<Id>,
                               entries': map<Id, PriorityEntry>, e: Id) returns (top: Id)
    requires Ticks(entries, dt, tick, entries') && e in entries && e !in tick.selected
    requires forall k :: k in entries ==> tick.sizes(k) <= tick.budget
    ensures top in entries && top in tick.selected && top != e
    ensures Grown(entries, dt)[top].accumulated >= Grown(entries, dt)[e].accumulated
  {
    var grown := Grown(entries, dt);
    var order :| IsOrder(grown, order) && tick.selected == Greedy(order, tick.sizes, tick.budget).selected
                 && entries' == Reset(grown, tick.selected);
    assert e in order && grown.Keys == entries.Keys;
    hide Grown;
    var i :| 0 <= i < |order| && order[i] == e;
    top := order[0];
    assert top in order && top in grown;
    FirstIsChosen(order, tick.sizes, tick.budget);
  }

  lemma StepKeeps<Id(!new)>(entries: map<Id, PriorityEntry>, dt: real, tick: Tick<Id>,
                            entries': map<Id, PriorityEntry>, k: Id)
    requires Ticks(entries, dt, tick, entries') && k in entries
    ensures k in entries' && entries'[k].base == entries[k].base
    ensures entries'[k].accumulated ==
      if k in tick.selected then 0.0 else Grew(entries[k], dt).accumulated
  {
    var order :| IsOrder(Grown(entries, dt), order) && tick.selected == Greedy(order, tick.sizes, tick.budget).selected
                 && entries' == Reset(Grown(entries, dt), tick.selected);
  }

  lemma StepKeepsKeys<Id(!new)>(entries: map<Id, PriorityEntry>, dt: real, tick: Tick<Id>,
                                entries': map<Id, PriorityEntry>)
    requires Ticks(entries, dt, tick, entries')
    ensures entries'.Keys == entries.Keys
  {
    var order :| IsOrder(Grown(entries, dt), order) && tick.selected == Greedy(order, tick.sizes, tick.budget).selected
                 && entries' == Reset(Grown(entries, dt), tick.selected);
  }

  lemma {:induction false} SameEntities<Id(!new)>(dt: real, run: seq<map<Id, PriorityEntry>>, ticks: seq<Tick<Id>>,
                                                  t: nat)
    requires IsRun(dt, run, ticks) && t <= |ticks|
    ensures run[t].Keys == run[0].Keys
    decreases t
  {
    if t > 0 {
      SameEntities(dt, run, ticks, t - 1);
      hide Ticks;
      StepKeepsKeys(run[t - 1], dt, ticks[t - 1], run[t]);
    }
  }

  lemma {:induction false} SameBase<Id(!new)>(dt: real, run: seq<map<Id, PriorityEntry>>, ticks: seq<Tick<Id>>, t: nat,
                                              k: Id)
    requires IsRun(dt, run, ticks) && t <= |ticks| && k in run[0]
    ensures k in run[t] && run[t][k].base == run[0][k].base
    decreases t
  {
    if t > 0 {
      SameBase(dt, run, ticks, t - 1, k);
      hide Ticks;
      StepKeeps(run[t - 1], dt, ticks[t - 1], run[t], k);
    }
  }

  function Times(n: nat, u: real): real { n as real * u }

  lemma TimesFacts(m: nat, n: nat, u: real)
    requires u >= 0.0
    ensures Times(0, u) == 0.0 && Times(n + 1, u) == Times(n, u) + u
    ensures m <= n ==> Times(m, u) <= Times(n, u)
    ensures m < n && u > 0.0 ==> Times(m, u) < Times(n, u)
  {
    if m <= n {
      var d := n - m;
      assert n as real == m as real + d as real;
      assert Times(n, u) == Times(m, u) + d as real * u;
      assert d as real * u >= 0.0;
      if d > 0 && u > 0.0 { assert d as real * u > 0.0; }
    }
  }

  ghost predicate NeverSelected<Id(!new)>(ticks: seq<Tick<Id>>, e: Id) {
    forall t :: 0 <= t < |ticks| ==> e !in ticks[t].selected
  }

  /** What tick `t` does to one entity. */
  lemma TickOf<Id(!new)>(dt: real, run: seq<map<Id, PriorityEntry>>, ticks: seq<Tick<Id>>, t: nat, k: Id)
    requires IsRun(dt, run, ticks) && t < |ticks| && k in run[0]
    ensures k in run[t] && k in run[t + 1]
    ensures run[t + 1][k].accumulated ==
      if k in ticks[t].selected then 0.0 else run[t][k].accumulated + run[0][k].base * dt
  {
    hide *;
    RunStep(dt, run, ticks, t);
    SameBase(dt, run, ticks, t, k);
    StepKeeps(run[t], dt, ticks[t], run[t + 1], k);
    GrewBy(run[t][k], run[0][k].base, dt);
  }

  lemma RunStep<Id(!new)>(dt: real, run: seq<map<Id, PriorityEntry>>, ticks: seq<Tick<Id>>, t: nat)
    requires IsRun(dt, run, ticks) && t < |ticks|
    ensures |run| == |ticks| + 1 && Ticks(run[t], dt, ticks[t], run[t + 1])
  {
    hide Ticks;
  }

  lemma GrewBy(entry: PriorityEntry, base: real, dt: real)
    requires entry.base == base
    ensures Grew(entry, dt).accumulated == entry.accumulated + base * dt
  {
  }

  /** Who is never selected has been growing all along. */
  lemma {:induction false} UnselectedGrows<Id(!new)>(dt: real, run: seq<map<Id, PriorityEntry>>, ticks: seq<Tick<Id>>,
                                                     e: Id, t: nat)
    requires IsRun(dt, run, ticks) && t <= |ticks| && e in run[0] && NeverSelected(ticks, e)
    requires run[0][e].accumulated >= 0.0 && run[0][e].base * dt >= 0.0
    ensures e in run[t] && run[t][e].accumulated >= Times(t, run[0][e].base * dt)
    decreases t
  {
    var u := run[0][e].base * dt;
    TimesFacts(0, if t > 0 then t - 1 else 0, u);
    if t > 0 {
      UnselectedGrows(dt, run, ticks, e, t - 1);
      hide IsRun, Times;
      TickOf(dt, run, ticks, t - 1, e);
    }
  }

  /** Who was selected at tick `i` cannot have grown much by tick `t`. */
  lemma {:induction false} SelectedIsLow<Id(!new)>(dt: real, run: seq<map<Id, PriorityEntry>>, ticks: seq<Tick<Id>>,
                                                   x: Id, i: nat, t: nat, most: real)
    requires IsRun(dt, run, ticks) && i < t <= |ticks| && x in run[0] && x in ticks[i].selected
    requires run[0][x].base * dt <= most && most >= 0.0
    ensures x in run[t] && run[t][x].accumulated <= Times(t - i - 1, most)
    decreases t
  {
    hide IsRun, Times;
    assert |run| == |ticks| + 1 by { RunLength(dt, run, ticks); }
    TickOf(dt, run, ticks, t - 1, x);
    TimesFacts(0, t - i - 1, most);
    if t > i + 1 {
      SelectedIsLow(dt, run, ticks, x, i, t - 1, most);
      TimesFacts(0, t - i - 2, most);
    }
  }

  lemma RunLength<Id(!new)>(dt: real, run: seq<map<Id, PriorityEntry>>, ticks: seq<Tick<Id>>)
    requires IsRun(dt, run, ticks)
    ensures |run| == |ticks| + 1
  {
  }

  /** The setting: everyone's base is positive and at most `most`, every size is
      within the budget, and the wait `k` covers everyone else at full base. */
  ghost predicate Fair<Id(!new)>(dt: real, run: seq<map<Id, PriorityEntry>>, ticks: seq<Tick<Id>>, e: Id, most: real,
                                 k: nat) {
    && IsRun(dt, run, ticks) && dt > 0.0
    && e in run[0] && run[0][e].accumulated >= 0.0 && run[0][e].base > 0.0
    && (forall x :: x in run[0] ==> run[0][x].base <= most)
    && (forall t, x :: 0 <= t < |ticks| && x in run[0] ==> ticks[t].sizes(x) <= ticks[t].budget)
    && k as real * run[0][e].base >= (|run[0]| - 1) as real * most
    && |ticks| == k + |run[0]|
  }

  lemma Scaled(a: nat, u: real, b: nat, v: real, dt: real)
    requires a as real * u >= b as real * v && dt > 0.0
    ensures Times(a, u * dt) >= Times(b, v * dt)
  {
    assert (a as real * u) * dt >= (b as real * v) * dt;
    assert (a as real * u) * dt == a as real * (u * dt);
    assert (b as real * v) * dt == b as real * (v * dt);
  }

  lemma Product(u: real, v: real, dt: real)
    requires dt > 0.0
    ensures u <= v ==> u * dt <= v * dt
    ensures u > 0.0 ==> u * dt > 0.0
  {
  }

  lemma FairRates<Id(!new)>(dt: real, run: seq<map<Id, PriorityEntry>>, ticks: seq<Tick<Id>>, e: Id, most: real,
                            k: nat, x: Id)
    requires Fair(dt, run, ticks, e, most, k) && x in run[0]
    ensures run[0][e].base * dt > 0.0 && most * dt >= 0.0 && run[0][x].base * dt <= most * dt
    ensures Times(k, run[0][e].base * dt) >= Times(|run[0]| - 1, most * dt)
  {
    var b := run[0][e].base;
    Product(b, most, dt);
    Product(run[0][x].base, most, dt);
    Scaled(k, b, |run[0]| - 1, most, dt);
  }

  lemma GrownAt<Id(!new)>(dt: real, run: seq<map<Id, PriorityEntry>>, ticks: seq<Tick<Id>>, t: nat, x: Id)
    requires IsRun(dt, run, ticks) && t <= |ticks| && x in run[0]
    ensures x in run[t] && Grown(run[t], dt)[x].accumulated == run[t][x].accumulated + run[0][x].base * dt
  {
    SameBase(dt, run, ticks, t, x);
    GrewBy(run[t][x], run[0][x].base, dt);
    hide IsRun, Grew;
  }

  /** After the wait `k`, whoever leads once without `e` cannot lead again. */
  lemma LeadersDiffer<Id(!new)>(dt: real, run: seq<map<Id, PriorityEntry>>, ticks: seq<Tick<Id>>, e: Id, most: real,
                                k: nat, x: Id, i: nat, j: nat)
    requires Fair(dt, run, ticks, e, most, k) && NeverSelected(ticks, e)
    requires k <= i < j < |ticks| && x in ticks[i].selected && x in run[0]
    ensures e in run[j] && x in run[j]
    ensures Grown(run[j], dt)[x].accumulated < Grown(run[j], dt)[e].accumulated
  {
    FairRates(dt, run, ticks, e, most, k, x);
    var n, u, v, w := |run[0]|, run[0][e].base * dt, most * dt, run[0][x].base * dt;
    assert IsRun(dt, run, ticks) && e in run[0] && run[0][e].accumulated >= 0.0 && |ticks| == k + n;
    hide Fair, IsRun, Times, NeverSelected, Grown;
    UnselectedGrows(dt, run, ticks, e, j);
    SelectedIsLow(dt, run, ticks, x, i, j, v);
    GrownAt(dt, run, ticks, j, x);
    GrownAt(dt, run, ticks, j, e);
    LowBelowHigh(run[j][x].accumulated, w, v, j - i, n - 1, run[j][e].accumulated, u, j, k);
  }

  lemma LowBelowHigh(low: real, w: real, v: real, d: nat, n: nat, high: real, u: real, j: nat, k: nat)
    requires d >= 1 && d <= n && k <= j && u > 0.0 && v >= 0.0
    requires low <= Times(d - 1, v) && w <= v && high >= Times(j, u) && Times(k, u) >= Times(n, v)
    ensures low + w < high + u
  {
    TimesFacts(d, d - 1, v);
    TimesFacts(d, n, v);
    TimesFacts(k, j, u);
    hide Times;
  }

  lemma {:induction false} DistinctAreMany<Id>(s: seq<Id>, pool: set<Id>)
    requires forall i, j :: 0 <= i < j < |s| ==> s[i] != s[j]
    requires forall i :: 0 <= i < |s| ==> s[i] in pool
    ensures |s| <= |pool|
  {
    if s != [] {
      var last := s[|s| - 1];
      DistinctAreMany(s[..|s| - 1], pool - {last});
    }
  }

  /** The leaders of the ticks since the wait, none of them `e`. */
  ghost predicate Leads<Id(!new)>(dt: real, run: seq<map<Id, PriorityEntry>>, ticks: seq<Tick<Id>>, e: Id, k: nat,
                                  tops: seq<Id>)
    requires |run| == |ticks| + 1 && k + |tops| <= |ticks|
  {
    forall m :: 0 <= m < |tops| ==>
      && tops[m] in run[0] && tops[m] != e && tops[m] in ticks[k + m].selected
      && tops[m] in run[k + m] && e in run[k + m]
      && Grown(run[k + m], dt)[tops[m]].accumulated >= Grown(run[k + m], dt)[e].accumulated
  }

  lemma {:induction false} FindLeaders<Id(!new)>(dt: real, run: seq<map<Id, PriorityEntry>>, ticks: seq<Tick<Id>>,
                                                 e: Id, most: real, k: nat, n: nat) returns (tops: seq<Id>)
    requires Fair(dt, run, ticks, e, most, k) && NeverSelected(ticks, e) && k + n <= |ticks|
    ensures |tops| == n && Leads(dt, run, ticks, e, k, tops)
  {
    tops := [];
    if n > 0 {
      tops := FindLeaders(dt, run, ticks, e, most, k, n - 1);
      var t := k + n - 1;
      SameEntities(dt, run, ticks, t);
      var top := SomeoneAhead(run[t], dt, ticks[t], run[t + 1], e);
      tops := tops + [top];
    }
  }

  /** With every size within the budget, no entity waits more than `k` plus as
      many ticks as there are entities, whatever the order of the map and of
      ties: `k` ticks of its own base outweigh one round of everyone else's. */
  lemma NobodyStarves<Id(!new)>(dt: real, run: seq<map<Id, PriorityEntry>>, ticks: seq<Tick<Id>>, e: Id, most: real,
                                k: nat)
    requires Fair(dt, run, ticks, e, most, k)
    ensures exists t :: 0 <= t < |ticks| && e in ticks[t].selected
  {
    if NeverSelected(ticks, e) {
      var n := |run[0]|;
      var tops := FindLeaders(dt, run, ticks, e, most, k, n);
      forall i, j | 0 <= i < j < n ensures tops[i] != tops[j] {
        if tops[i] == tops[j] { LeadersDiffer(dt, run, ticks, e, most, k, tops[i], k + i, k + j); }
      }
      hide Grown;
      assert |run[0].Keys - {e}| == n - 1;
      DistinctAreMany(tops, run[0].Keys - {e});
    }
  }

  /** Nothing less than that condition on sizes will do: what does not fit the
      budget is never selected, however long it has waited. */
  lemma TooLargeIsNeverSelected<Id(!new)>(entries: map<Id, PriorityEntry>, dt: real, tick: Tick<Id>,
                                          entries': map<Id, PriorityEntry>, e: Id)
    requires Ticks(entries, dt, tick, entries') && tick.sizes(e) > tick.budget
    ensures e !in tick.selected
  {
    var order :| IsOrder(Grown(entries, dt), order) && tick.selected == Greedy(order, tick.sizes, tick.budget).selected
                 && entries' == Reset(Grown(entries, dt), tick.selected);
    if e in tick.selected {
      BudgetIsSplit(order, tick.sizes, tick.budget);
      var i :| 0 <= i < |order| && order[i] == e;
      ChosenIffItFits(order, tick.sizes, tick.budget, i);
    }
  }

  /** `ceil(n * B / b)` */
  function Wait(n: nat, most: real, base: real): (k: nat)
    requires base > 0.0 && most >= base
    ensures k as real * base >= n as real * most
  {
    var x := n as real * most / base;
    assert x * base == n as real * most;
    assert x >= 0.0 by { Quotient(n, most, base); }
    var k := if x.Floor as real == x then x.Floor else x.Floor + 1;
    assert k as real >= x;
    assert k as real * base >= x * base by { MoreTimes(k as real, x, base); }
    k
  }

  lemma Quotient(n: nat, most: real, base: real)
    requires base > 0.0 && most >= base
    ensures n as real * most / base >= 0.0
  {
    assert n as real * most >= 0.0;
  }

  lemma MoreTimes(a: real, b: real, c: real)
    requires a >= b && c > 0.0
    ensures a * c >= b * c
  {
  }

  /** The promise in numbers: at most `ceil(n * B / b) + n` ticks. */
  lemma SelectedInTime<Id(!new)>(dt: real, run: seq<map<Id, PriorityEntry>>, ticks: seq<Tick<Id>>, e: Id, most: real)
    requires IsRun(dt, run, ticks) && dt > 0.0
    requires e in run[0] && run[0][e].accumulated >= 0.0 && run[0][e].base > 0.0
    requires forall x :: x in run[0] ==> run[0][x].base <= most
    requires forall t, x :: 0 <= t < |ticks| && x in run[0] ==> ticks[t].sizes(x) <= ticks[t].budget
    requires |ticks| == Wait(|run[0]|, most, run[0][e].base) + |run[0]|
    ensures exists t :: 0 <= t < |ticks| && e in ticks[t].selected
  {
    var n, b := |run[0]|, run[0][e].base;
    var k := Wait(n, most, b);
    hide IsRun, Wait;
    assert n as real * most >= (n - 1) as real * most by { MoreTimes(n as real, (n - 1) as real, most); }
    NobodyStarves(dt, run, ticks, e, most, k);
  }
}
