/**
 What reading numToReals_ does to it. A subscript inserts an empty address for a missing
 number, so the maps stay inverse exactly as long as no call reads a number that is free; and
 clearing the source rules, which dereferences what it finds, is defined exactly when every
 number has an entry each time it is looked up.
 */
module Subscripts {
  import opened Residues
  import opened Vips
  import opened Allocator
  import opened Prefixes
  import opened ControlPlane
  import opened RefSafety
  import opened RefLeaks
  import opened TableSafety
  import opened Runs

  lemma LiveIffCounted(p: Pool, n: nat)
    requires PoolOk(p)
    ensures n in p.names <==> RefCount(p, n) > 0
    ensures n < p.max ==> (n in p.free <==> n !in p.names)
  {
  }

  /** Reading and releasing a number: one reference less, or an empty address if it had none. */
  lemma ReleaseNumberCounts(p: Pool, m: nat, n: nat)
    requires PoolOk(p)
    ensures var q := ReleaseNumber(p, m);
      && RefCount(q, n) == (if n == m then Monus(RefCount(p, n), 1) else RefCount(p, n))
      && (n in q.blank <==> n in p.blank || (n == m && RefCount(p, n) == 0))
  {
    LiveIffCounted(p, m);
    if m in p.names {
      ReleaseCounts(p, p.names[m]);
    }
  }

  // ---------------------------------------------------------------------
  // Deleting rules
  // ---------------------------------------------------------------------

  ghost function NamedRules(rules: map<Net, nat>, srcs: seq<Net>, n: nat): set<Net> {
    set r | r in rules && r in srcs && rules[r] == n
  }

  /** How many of the rules that the prefixes name lead to the number. */
  ghost function Named(rules: map<Net, nat>, srcs: seq<Net>, n: nat): nat {
    |NamedRules(rules, srcs, n)|
  }

  lemma NamedNext(rules: map<Net, nat>, front: seq<Net>, src: Net, n: nat)
    ensures Named(rules, front + [src], n) ==
      Named(rules, front, n) + if src in rules && src !in front && rules[src] == n then 1 else 0
  {
    var before, after := NamedRules(rules, front, n), NamedRules(rules, front + [src], n);
    if src in rules && src !in front && rules[src] == n {
      assert after == before + {src} && src !in before;
    } else {
      assert after == before;
    }
  }

  lemma {:induction false} RulesGone(s: Lb, srcs: seq<Net>)
    ensures DelRules(s, srcs).rules == s.rules - Elements(srcs)
  {
    if srcs != [] {
      var front, src := srcs[..|srcs| - 1], srcs[|srcs| - 1];
      assert srcs == front + [src];
      RulesGone(s, front);
      assert Elements(srcs) == Elements(front) + {src};
    }
  }

  /** Closed form: what deleting any list of prefixes leaves of counts and empty addresses. */
  lemma {:induction false} DelRulesCounts(s: Lb, srcs: seq<Net>, n: nat)
    requires PoolOk(s.pool)
    ensures var s' := DelRules(s, srcs);
      && RefCount(s'.pool, n) == Monus(RefCount(s.pool, n), Named(s.rules, srcs, n))
      && (n in s'.pool.blank <==> n in s.pool.blank || Named(s.rules, srcs, n) > RefCount(s.pool, n))
  {
    if srcs == [] {
      assert NamedRules(s.rules, srcs, n) == {};
    } else {
      var front, src := srcs[..|srcs| - 1], srcs[|srcs| - 1];
      assert srcs == front + [src];
      DelRulesCounts(s, front, n);
      DelRulesNames(s, front);
      NamedNext(s.rules, front, src, n);
      RulesGone(s, front);
      var s1 := DelRules(s, front);
      hide PoolOk, RefCount, ReleaseNumber, Named, RulesOnly, NamesGrow, KeyOf;
      if src in s1.rules {
        ReleaseNumberCounts(s1.pool, s1.rules[src], n);
      }
    }
  }

  /** Clearing in a given order finds every number if and only if the counts suffice. */
  lemma {:induction false} FindsAllIff(s: Lb, srcs: seq<Net>)
    requires PoolOk(s.pool)
    ensures FindsAll(s, srcs) <==>
      forall n: nat :: Named(s.rules, srcs, n) > RefCount(s.pool, n) ==> n in s.pool.blank
  {
    if srcs == [] {
      assert forall n: nat :: NamedRules(s.rules, srcs, n) == {};
    } else {
      var front, src := srcs[..|srcs| - 1], srcs[|srcs| - 1];
      assert srcs == front + [src];
      FindsAllIff(s, front);
      DelRulesNames(s, front);
      var s1 := DelRules(s, front);
      forall n: nat
        ensures Named(s.rules, srcs, n) ==
          Named(s.rules, front, n) + if src in s.rules && src !in front && s.rules[src] == n then 1 else 0
      {
        NamedNext(s.rules, front, src, n);
      }
      RulesGone(s, front);
      hide PoolOk, RefCount, Named, RulesOnly, NamesGrow, DelRules;
      if src in s1.rules {
        var m := s.rules[src];
        DelRulesCounts(s, front, m);
        LiveIffCounted(s1.pool, m);
      }
    }
  }

  /** What a caller can check: no number has more rules than references, or it has an empty address. */
  ghost predicate ClearDefined(s: Lb) {
    forall n: nat :: |RuleUsers(s.rules, n)| > RefCount(s.pool, n) ==> n in s.pool.blank
  }

  /** clearAllSrcRoutingRules is defined if and only if this holds, whatever the order of the rules. */
  lemma ClearDefinedIff(s: Lb, srcs: seq<Net>)
    requires PoolOk(s.pool) && Elements(srcs) == s.rules.Keys
    ensures FindsAll(s, srcs) <==> ClearDefined(s)
  {
    FindsAllIff(s, srcs);
    forall n: nat ensures Named(s.rules, srcs, n) == |RuleUsers(s.rules, n)| {
      assert forall r :: r in s.rules ==> r in Elements(srcs);
      assert NamedRules(s.rules, srcs, n) == RuleUsers(s.rules, n);
    }
  }

  lemma CoveredClears(s: Lb)
    requires Covered(BooksOf(s))
    ensures ClearDefined(s)
  {
    forall n: nat ensures |RuleUsers(s.rules, n)| <= RefCount(s.pool, n) {
      assert RefCount(BooksOf(s).pool, n) >= Users(BooksOf(s), n);
    }
  }

  // ---------------------------------------------------------------------
  // Deleting a VIP
  // ---------------------------------------------------------------------

  lemma {:induction false} ReleaseAllCounts(p: Pool, nums: seq<nat>, n: nat)
    requires PoolOk(p) && Distinct(nums)
    ensures var q := ReleaseAll(p, nums);
      && RefCount(q, n) == (if n in nums then Monus(RefCount(p, n), 1) else RefCount(p, n))
      && (n in q.blank <==> n in p.blank || (n in nums && RefCount(p, n) == 0))
  {
    if nums != [] {
      var front, m := nums[..|nums| - 1], nums[|nums| - 1];
      assert nums == front + [m];
      assert Distinct(front) && m !in front;
      ReleaseAllCounts(p, front, n);
      ReleaseAllNames(p, front);
      hide PoolOk, RefCount, ReleaseNumber, NamesGrow;
      ReleaseNumberCounts(ReleaseAll(p, front), m, n);
    }
  }

  // ---------------------------------------------------------------------
  // Every call
  // ---------------------------------------------------------------------

  ghost predicate HoldsFree(p: Pool, nums: set<nat>) {
    exists n :: n in nums && n in p.free
  }

  /** The call reads a number that is free by then, as told from the state before it. */
  ghost predicate MeetsFree(s: Lb, op: Op) {
    match op
    case DelVip(k) => k in s.vips && HoldsFree(s.pool, s.vips[k].reals.Keys)
    case GetReals(k) => k in s.vips && HoldsFree(s.pool, s.vips[k].reals.Keys)
    case GetSrcRules => HoldsFree(s.pool, s.rules.Values)
    case DelSrcRules(srcs) => exists n: nat :: Named(s.rules, srcs, n) > RefCount(s.pool, n)
    case _ => false
  }

  lemma ReadBlank(p: Pool, nums: set<nat>)
    requires PoolOk(p) && p.blank == {} && forall n :: n in nums ==> n < p.max
    ensures Subscript(p, nums).blank == {} <==> !HoldsFree(p, nums)
  {
    var left := nums - p.names.Keys;
    assert Subscript(p, nums).blank == left;
    if n :| n in nums && n in p.free {
      assert n in left;
    }
    if n :| n in left {
      assert n in nums && n in p.free;
    }
  }

  lemma DelVipBlank(c: Config, s: Lb, k: VipKey, s': Lb)
    requires NumbersOk(c, s) && s.pool.blank == {} && DelVipStep(c, s, k, s')
    ensures s'.pool.blank == {} <==> !MeetsFree(s, Op.DelVip(k))
  {
    if k in s.vips {
      var nums: seq<nat> :| Enumerates(nums, s.vips[k].reals.Keys) && s' == DoDelVip(c, s, k, nums);
      assert KeysBelow(s.vips[k].reals, c.maxReals);
      hide ReleaseAll, VipNumbersOk, VipsBelow, RulesBelow, RulesOwned, Def;
      forall n: nat
        ensures n in s'.pool.blank <==> n in s.vips[k].reals.Keys && n in s.pool.free
      {
        ReleaseAllCounts(s.pool, nums, n);
        LiveIffCounted(s.pool, n);
        assert n in nums <==> n in Elements(nums);
      }
    }
  }

  lemma DelRulesBlank(s: Lb, srcs: seq<Net>)
    requires PoolOk(s.pool) && s.pool.blank == {}
    ensures DelRules(s, srcs).pool.blank == {} <==> !MeetsFree(s, DelSrcRules(srcs))
  {
    forall n: nat
      ensures n in DelRules(s, srcs).pool.blank <==> Named(s.rules, srcs, n) > RefCount(s.pool, n)
    {
      DelRulesCounts(s, srcs, n);
    }
    hide DelRules, PoolOk, Named, RefCount;
  }

  lemma ClearBlank(s: Lb, s': Lb)
    requires PoolOk(s.pool) && s.pool.blank == {} && ClearStep(s, s')
    ensures s'.pool.blank == {}
  {
    var srcs :|
      Distinct(srcs) && Elements(srcs) == s.rules.Keys && FindsAll(s, srcs) && s' == DelRules(s, srcs);
    FindsAllIff(s, srcs);
    DelRulesBlank(s, srcs);
  }

  /** From inverse maps every call leaves inverse maps if and only if it reads no free number. */
  lemma StepBlankIff(c: Config, s: Lb, op: Op, s': Lb)
    requires c.ringSize >= 2 && NumbersOk(c, s) && s.pool.blank == {} && Step(c, s, op, s')
    ensures s'.pool.blank == {} <==> !MeetsFree(s, op)
  {
    assert PoolOk(s.pool) && s.pool.max == c.maxReals && RulesBelow(s);
    hide PoolOk, DoReals, PushDelta, Diff, Batch, AddRules, DelRules, QuicAll, ReleaseAll, Def, NewFlags, ClearStep;
    hide Subscript, HoldsFree, Named, RefCount, DelVipStep;
    match op
    case AddVip(k, flags) =>
    case ModifyVip(k, flags, on) =>
    case DelVip(k) => DelVipBlank(c, s, k, s');
    case ModifyReals(k, action, rs) =>
      if k in s.vips { BatchBelow(c, action, Work(s.pool, s.vips[k].reals.Keys, []), rs); }
    case AddSrcRules(srcs, dst) => AddRulesBelow(c, s, srcs, dst);
    case DelSrcRules(srcs) => DelRulesBlank(s, srcs);
    case ClearSrcRules => ClearBlank(s, s');
    case ModifyQuic(action, qs) => QuicBelow(c, action, s, qs);
    case GetReals(k) =>
      if k in s.vips {
        assert KeysBelow(s.vips[k].reals, c.maxReals);
        ReadBlank(s.pool, s.vips[k].reals.Keys);
      }
    case GetSrcRules => ReadBlank(s.pool, s.rules.Values);
  }

  // ---------------------------------------------------------------------
  // Every run
  // ---------------------------------------------------------------------

  /** reals_ and numToReals_ are inverse in the first `n` states. */
  ghost predicate InverseUpTo(ss: seq<Lb>, n: nat)
    requires n < |ss|
  {
    forall i :: 0 <= i <= n ==> MapsInverse(ss[i].pool)
  }

  /** None of the first `n` calls reads a free number. */
  ghost predicate ReadsLive(ops: seq<Op>, ss: seq<Lb>, n: nat)
    requires n <= |ops| < |ss|
  {
    forall i :: 0 <= i < n ==> !MeetsFree(ss[i], ops[i])
  }

  /**
   Over any calls: reals_ and numToReals_ are inverse in every state so far, if and only if no
   call so far read a number that was free.
   */
  lemma {:induction false} InverseIffReadsLive(c: Config, ops: seq<Op>, ss: seq<Lb>, n: nat)
    requires c.ringSize >= 2 && Calls(c, ops, ss) && n <= |ops|
    ensures InverseUpTo(ss, n) <==> ReadsLive(ops, ss, n)
  {
    hide Step, MapsInverse, MeetsFree, NumbersOk;
    CallsKeepNumbers(c, ops, ss, n);
    StateInverseIff(c, ss[n]);
    if n > 0 {
      InverseIffReadsLive(c, ops, ss, n - 1);
      CallsKeepNumbers(c, ops, ss, n - 1);
      StateInverseIff(c, ss[n - 1]);
      assert Step(c, ss[n - 1], ops[n - 1], ss[n - 1 + 1]);
      if InverseUpTo(ss, n - 1) {
        assert MapsInverse(ss[n - 1].pool);
        StepBlankIff(c, ss[n - 1], ops[n - 1], ss[n]);
      }
    } else {
      assert ss[0].pool.blank == {};
    }
  }

  lemma StateInverseIff(c: Config, s: Lb)
    requires NumbersOk(c, s)
    ensures MapsInverse(s.pool) <==> s.pool.blank == {}
  {
    InverseIffNoBlank(s.pool);
  }

  /** Users of covered books hold no free number. */
  lemma CoveredReadsLive(c: Config, s: Lb, op: Op)
    requires NumbersOk(c, s) && Covered(BooksOf(s))
    ensures !MeetsFree(s, op)
  {
    forall n: nat | n in s.pool.free
      ensures forall k :: k in s.vips ==> n !in s.vips[k].reals
      ensures n !in s.rules.Values
    {
      FreeIsUnused(BooksOf(s), n);
      assert forall k :: k in s.vips ==> BooksOf(s).members[k] == s.vips[k].reals.Keys;
    }
    if op.DelSrcRules? {
      forall n: nat ensures Named(s.rules, op.srcs, n) <= RefCount(s.pool, n) {
        CoveredNamed(s, op.srcs, n);
      }
    }
  }

  lemma CoveredNamed(s: Lb, srcs: seq<Net>, n: nat)
    requires Covered(BooksOf(s))
    ensures Named(s.rules, srcs, n) <= RefCount(s.pool, n)
  {
    assert RefCount(BooksOf(s).pool, n) >= Users(BooksOf(s), n);
    SubsetCard(NamedRules(s.rules, srcs, n), RuleUsers(s.rules, n));
  }

  /** Without repeated deletions the maps are inverse in every state and clearing is always defined. */
  lemma NoRepeatsInverse(c: Config, ops: seq<Op>, ss: seq<Lb>, n: nat)
    requires c.ringSize >= 2 && Calls(c, ops, ss) && NoRepeats(c, ops) && n <= |ops|
    ensures MapsInverse(ss[n].pool) && ClearDefined(ss[n])
  {
    forall i | 0 <= i < n ensures !MeetsFree(ss[i], ops[i]) {
      CallsKeepNumbers(c, ops, ss, i);
      CallsKeepCovered(c, ops, ss, i);
      CoveredReadsLive(c, ss[i], ops[i]);
    }
    hide MeetsFree, NoRepeats, MapsInverse;
    InverseIffReadsLive(c, ops, ss, n);
    CallsKeepCovered(c, ops, ss, n);
    CoveredClears(ss[n]);
  }
}
