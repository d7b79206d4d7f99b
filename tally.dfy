/**
 * The counters of one scope (event, year or overall): the three sparse
 * `defaultdict(int)` maps and the three integer accumulators of
 * `update_team_year_index`. `CountAward` and `CountEventType` are the
 * in-place increments of one loop iteration; `Add` merges two scopes. The
 * lemmas show that `Add` is a commutative monoid, that an increment applied
 * to a merged scope lands in its second part (so a parent scope that is
 * incremented alongside its child stays equal to "parent before + child"),
 * and that two invariants survive every step: all stored counts are at least
 * one (sparseness) and the win counters agree with the composite counters.
 */
module Tally {
  import opened Records
  import opened Naming

  /** `d[k]` on a `defaultdict(int)`. */
  function Get<K>(m: map<K, nat>, k: K): nat
  {
    if k in m then m[k] else 0
  }

  /** `d[k] += 1` on a `defaultdict(int)`. */
  function Inc<K(!new)>(m: map<K, nat>, k: K): (r: map<K, nat>)
    ensures r.Keys == m.Keys + {k}
    ensures Get(r, k) == Get(m, k) + 1
  {
    m[k := Get(m, k) + 1]
  }

  lemma IncGet<K(!new)>(m: map<K, nat>, k: K, j: K)
    ensures Get(Inc(m, k), j) == if j == k then Get(m, k) + 1 else Get(m, j)
  {
  }

  /** Key-wise sum of two sparse counters. */
  function Merge<K(!new)>(a: map<K, nat>, b: map<K, nat>): (r: map<K, nat>)
    ensures r.Keys == a.Keys + b.Keys
  {
    map k | k in a.Keys + b.Keys :: Get(a, k) + Get(b, k)
  }

  lemma MergeGet<K(!new)>(a: map<K, nat>, b: map<K, nat>, k: K)
    ensures Get(Merge(a, b), k) == Get(a, k) + Get(b, k)
  {
  }

  /** Only keys that were incremented are stored. */
  ghost predicate Sparse<K>(m: map<K, nat>)
  {
    forall k :: k in m ==> m[k] >= 1
  }

  datatype Tally = Tally(
    awardTypes: map<nat, nat>,        // award_types_count
    eventAwardTypes: map<string, nat>, // event_award_types_count
    eventTypes: map<nat, nat>,        // event_types_count (year and overall scopes)
    bb: nat,                          // bb_count
    divwin: nat,                      // divwin_count
    cmpwin: nat)                      // cmpwin_count

  function Zero(): Tally { Tally(map[], map[], map[], 0, 0, 0) }

  function Add(x: Tally, y: Tally): (r: Tally)
  {
    Tally(Merge(x.awardTypes, y.awardTypes), Merge(x.eventAwardTypes, y.eventAwardTypes),
          Merge(x.eventTypes, y.eventTypes), x.bb + y.bb, x.divwin + y.divwin, x.cmpwin + y.cmpwin)
  }

  /** Lines 94-95 on one scope: one more event of the type, and no other counter changes. */
  function CountEventType(t: Tally, eventType: nat): (r: Tally)
    ensures Get(r.eventTypes, eventType) == Get(t.eventTypes, eventType) + 1
    ensures r.eventTypes.Keys == t.eventTypes.Keys + {eventType}
    ensures r.awardTypes == t.awardTypes && r.eventAwardTypes == t.eventAwardTypes
    ensures r.bb == t.bb && r.divwin == t.divwin && r.cmpwin == t.cmpwin
  {
    t.(eventTypes := Inc(t.eventTypes, eventType))
  }

  /**
   * Lines 104-127 on one scope: the increments one award causes. The
   * award's type and its (event type, award type) pair gain one, blue
   * banners gain one exactly for a BLUE_BANNER_AWARDS type, and event types
   * are untouched.
   */
  function CountAward(cfg: Config, t: Tally, a: Award): (r: Tally)
    ensures Get(r.awardTypes, a.awardType) == Get(t.awardTypes, a.awardType) + 1
    ensures Get(r.eventAwardTypes, CompositeKey(a.eventType, a.awardType))
         == Get(t.eventAwardTypes, CompositeKey(a.eventType, a.awardType)) + 1
    ensures r.bb == t.bb + (if a.awardType in cfg.blueBanner then 1 else 0)
    ensures r.eventTypes == t.eventTypes
  {
    var isWin := a.awardType == cfg.winner;
    t.(awardTypes := Inc(t.awardTypes, a.awardType),
       eventAwardTypes := Inc(t.eventAwardTypes, CompositeKey(a.eventType, a.awardType)),
       bb := if a.awardType in cfg.blueBanner then t.bb + 1 else t.bb,
       divwin := if isWin && a.eventType == cfg.cmpDivision then t.divwin + 1 else t.divwin,
       cmpwin := if isWin && a.eventType != cfg.cmpDivision && a.eventType == cfg.cmpFinals
                 then t.cmpwin + 1 else t.cmpwin)
  }

  // ----- Add is a commutative monoid -----

  lemma MergeComm<K(!new)>(a: map<K, nat>, b: map<K, nat>)
    ensures Merge(a, b) == Merge(b, a)
  {
    var l, r := Merge(a, b), Merge(b, a);
    forall k | k in l ensures l[k] == r[k] {
      MergeGet(a, b, k);
      MergeGet(b, a, k);
    }
  }

  lemma MergeAssoc<K(!new)>(a: map<K, nat>, b: map<K, nat>, c: map<K, nat>)
    ensures Merge(Merge(a, b), c) == Merge(a, Merge(b, c))
  {
    var l, r := Merge(Merge(a, b), c), Merge(a, Merge(b, c));
    forall k | k in l ensures l[k] == r[k] {
      MergeGet(Merge(a, b), c, k);
      MergeGet(a, b, k);
      MergeGet(a, Merge(b, c), k);
      MergeGet(b, c, k);
    }
  }

  lemma MergeEmpty<K(!new)>(a: map<K, nat>)
    ensures Merge(a, map[]) == a
  {
    var l := Merge(a, map[]);
    forall k | k in l ensures l[k] == a[k] {
      MergeGet(a, map[], k);
    }
  }

  lemma AddComm(x: Tally, y: Tally)
    ensures Add(x, y) == Add(y, x)
  {
    MergeComm(x.awardTypes, y.awardTypes);
    MergeComm(x.eventAwardTypes, y.eventAwardTypes);
    MergeComm(x.eventTypes, y.eventTypes);
  }

  lemma AddAssoc(x: Tally, y: Tally, z: Tally)
    ensures Add(Add(x, y), z) == Add(x, Add(y, z))
  {
    var l, r := Add(Add(x, y), z), Add(x, Add(y, z));
    assert l.awardTypes == r.awardTypes by {
      MergeAssoc(x.awardTypes, y.awardTypes, z.awardTypes);
    }
    assert l.eventAwardTypes == r.eventAwardTypes by {
      MergeAssoc(x.eventAwardTypes, y.eventAwardTypes, z.eventAwardTypes);
    }
    assert l.eventTypes == r.eventTypes by {
      MergeAssoc(x.eventTypes, y.eventTypes, z.eventTypes);
    }
  }

  lemma AddSwap(x: Tally, y: Tally, z: Tally)
    ensures Add(Add(x, y), z) == Add(Add(x, z), y)
  {
    AddAssoc(x, y, z);
    AddComm(y, z);
    AddAssoc(x, z, y);
  }

  lemma AddZero(x: Tally)
    ensures Add(x, Zero()) == x
  {
    MergeEmpty(x.awardTypes);
    MergeEmpty(x.eventAwardTypes);
    MergeEmpty(x.eventTypes);
  }

  // ----- increments on a merged scope -----

  lemma IncMerge<K(!new)>(a: map<K, nat>, b: map<K, nat>, k: K)
    ensures Inc(Merge(a, b), k) == Merge(a, Inc(b, k))
  {
    var l, r := Inc(Merge(a, b), k), Merge(a, Inc(b, k));
    forall j | j in l ensures l[j] == r[j] {
      IncGet(Merge(a, b), k, j);
      MergeGet(a, b, j);
      MergeGet(a, Inc(b, k), j);
      IncGet(b, k, j);
    }
  }

  /** Counting an award in "base + t" is counting it in t. */
  lemma CountAwardShift(cfg: Config, base: Tally, t: Tally, a: Award)
    ensures CountAward(cfg, Add(base, t), a) == Add(base, CountAward(cfg, t, a))
  {
    var l, r := CountAward(cfg, Add(base, t), a), Add(base, CountAward(cfg, t, a));
    assert l.awardTypes == r.awardTypes by {
      IncMerge(base.awardTypes, t.awardTypes, a.awardType);
    }
    assert l.eventAwardTypes == r.eventAwardTypes by {
      IncMerge(base.eventAwardTypes, t.eventAwardTypes, CompositeKey(a.eventType, a.awardType));
    }
  }

  /** Counting an event type in "base + t" is counting it in t. */
  lemma CountEventTypeShift(base: Tally, t: Tally, eventType: nat)
    ensures CountEventType(Add(base, t), eventType) == Add(base, CountEventType(t, eventType))
  {
    IncMerge(base.eventTypes, t.eventTypes, eventType);
  }

  // ----- sparseness -----

  ghost predicate SparseTally(t: Tally)
  {
    Sparse(t.awardTypes) && Sparse(t.eventAwardTypes) && Sparse(t.eventTypes)
  }

  lemma SparseMerge<K(!new)>(a: map<K, nat>, b: map<K, nat>)
    requires Sparse(a) && Sparse(b)
    ensures Sparse(Merge(a, b))
  {
    var m := Merge(a, b);
    forall k | k in m ensures m[k] >= 1 {
      MergeGet(a, b, k);
    }
  }

  lemma SparseInc<K(!new)>(a: map<K, nat>, k: K)
    requires Sparse(a)
    ensures Sparse(Inc(a, k))
  {
  }

  lemma SparseSteps(cfg: Config, x: Tally, y: Tally, a: Award, eventType: nat)
    requires SparseTally(x) && SparseTally(y)
    ensures SparseTally(Add(x, y))
    ensures SparseTally(CountAward(cfg, x, a))
    ensures SparseTally(CountEventType(x, eventType))
  {
    SparseMerge(x.awardTypes, y.awardTypes);
    SparseMerge(x.eventAwardTypes, y.eventAwardTypes);
    SparseMerge(x.eventTypes, y.eventTypes);
    SparseInc(x.awardTypes, a.awardType);
    SparseInc(x.eventAwardTypes, CompositeKey(a.eventType, a.awardType));
    SparseInc(x.eventTypes, eventType);
  }

  // ----- the win counters -----

  /**
   * `divwin` counts exactly the WINNER awards at CMP_DIVISION events, which
   * are also counted under the composite key of that pair; `cmpwin` likewise
   * for CMP_FINALS (when it differs from CMP_DIVISION); and every win is a
   * WINNER award, counted at most once between the two.
   */
  ghost predicate WinsAgree(cfg: Config, t: Tally)
  {
    && t.divwin == Get(t.eventAwardTypes, CompositeKey(cfg.cmpDivision, cfg.winner))
    && (cfg.cmpFinals != cfg.cmpDivision ==>
          t.cmpwin == Get(t.eventAwardTypes, CompositeKey(cfg.cmpFinals, cfg.winner)))
    && (cfg.cmpFinals == cfg.cmpDivision ==> t.cmpwin == 0)
    && t.divwin + t.cmpwin <= Get(t.awardTypes, cfg.winner)
  }

  /**
   * One award raises `divwin` only when it is a WINNER award at a
   * CMP_DIVISION event, raises `cmpwin` only when it is a WINNER award at a
   * CMP_FINALS event, and never raises both.
   */
  lemma WinsExclusive(cfg: Config, t: Tally, a: Award)
    ensures CountAward(cfg, t, a).divwin > t.divwin ==> a.awardType == cfg.winner && a.eventType == cfg.cmpDivision
    ensures CountAward(cfg, t, a).cmpwin > t.cmpwin ==> a.awardType == cfg.winner && a.eventType == cfg.cmpFinals
    ensures CountAward(cfg, t, a).divwin + CountAward(cfg, t, a).cmpwin <= t.divwin + t.cmpwin + 1
  {
  }

  lemma WinsAgreeZero(cfg: Config)
    ensures WinsAgree(cfg, Zero())
  {
  }

  lemma WinsAgreeCountAward(cfg: Config, t: Tally, a: Award)
    requires WinsAgree(cfg, t)
    ensures WinsAgree(cfg, CountAward(cfg, t, a))
  {
    var key := CompositeKey(a.eventType, a.awardType);
    CompositeKeyInjective(a.eventType, a.awardType, cfg.cmpDivision, cfg.winner);
    CompositeKeyInjective(a.eventType, a.awardType, cfg.cmpFinals, cfg.winner);
  }

  lemma WinsAgreeAdd(cfg: Config, x: Tally, y: Tally)
    requires WinsAgree(cfg, x) && WinsAgree(cfg, y)
    ensures WinsAgree(cfg, Add(x, y))
  {
  }

  lemma WinsAgreeCountEventType(cfg: Config, t: Tally, eventType: nat)
    requires WinsAgree(cfg, t)
    ensures WinsAgree(cfg, CountEventType(t, eventType))
  {
  }

  // ----- totals of a counter -----

  /** The sum of all counts stored in a counter. */
  ghost function SumValues<K>(m: map<K, nat>): nat
    decreases |m|
  {
    if m == map[] then 0 else var k :| k in m; m[k] + SumValues(m - {k})
  }

  /** The sum can be unfolded at any key, not only the one the definition picks. */
  lemma {:induction false} SumValuesAt<K>(m: map<K, nat>, k: K)
    requires k in m
    ensures SumValues(m) == m[k] + SumValues(m - {k})
    decreases |m|
  {
    var j :| j in m && SumValues(m) == m[j] + SumValues(m - {j});
    if j != k {
      SumValuesAt(m - {j}, k);
      SumValuesAt(m - {k}, j);
      assert m - {j} - {k} == m - {k} - {j};
    }
  }

  /** Setting one key's count changes the total by the difference. */
  lemma SumValuesUpdate<K>(m: map<K, nat>, k: K, v: nat)
    ensures SumValues(m[k := v]) + Get(m, k) == SumValues(m) + v
  {
    SumValuesAt(m[k := v], k);
    assert m[k := v] - {k} == m - {k};
    if k in m {
      SumValuesAt(m, k);
    } else {
      assert m - {k} == m;
    }
  }

  lemma SumValuesInc<K(!new)>(m: map<K, nat>, k: K)
    ensures SumValues(Inc(m, k)) == SumValues(m) + 1
  {
    SumValuesUpdate(m, k, Get(m, k) + 1);
  }

  lemma MergeSplit<K(!new)>(a: map<K, nat>, b: map<K, nat>, k: K)
    requires k in b
    ensures Merge(a, b) == Merge(a, b - {k})[k := Get(a, k) + b[k]]
  {
    var l, r := Merge(a, b), Merge(a, b - {k})[k := Get(a, k) + b[k]];
    forall j | j in l ensures j in r && l[j] == r[j] {
      if j != k {
        MergeGet(a, b, j);
        MergeGet(a, b - {k}, j);
      }
    }
  }

  lemma SumValuesMergeStep<K(!new)>(a: map<K, nat>, b: map<K, nat>, k: K)
    requires k in b
    requires SumValues(Merge(a, b - {k})) == SumValues(a) + SumValues(b - {k})
    ensures SumValues(Merge(a, b)) == SumValues(a) + SumValues(b)
  {
    var m, v := Merge(a, b - {k}), Get(a, k) + b[k];
    SumValuesAt(b, k);
    MergeSplit(a, b, k);
    MergeGet(a, b - {k}, k);
    SumValuesUpdate(m, k, v);
  }

  /** The total of a merged counter is the sum of the totals. */
  lemma {:induction false} SumValuesMerge<K(!new)>(a: map<K, nat>, b: map<K, nat>)
    ensures SumValues(Merge(a, b)) == SumValues(a) + SumValues(b)
    decreases |b|
  {
    if b == map[] {
      MergeEmpty(a);
      assert SumValues(b) == 0;
    } else {
      var k :| k in b;
      assert |b - {k}| < |b|;
      SumValuesMerge(a, b - {k});
      SumValuesMergeStep(a, b, k);
    }
  }
}
