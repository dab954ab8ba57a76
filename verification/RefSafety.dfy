/**
 Reference counts over whole runs: no call sequence recycles the number of a real that some
 VIP, QUIC mapping or source rule still uses, and without leaks the counts are exact.
 */
module RefSafety {
  import opened Options
  import opened Residues
  import opened Maglev
  import opened Vips
  import opened Allocator
  import opened ControlPlane

  ghost function MembersOf(vips: map<VipKey, VipState>): map<VipKey, set<nat>> {
    map k | k in vips :: vips[k].reals.Keys
  }

  ghost function BooksOf(s: Lb): Books {
    Books(s.pool, MembersOf(s.vips), s.quic.Keys, s.rules)
  }

  lemma InitExact(c: Config)
    ensures Exact(BooksOf(Init(c)))
  {
    NewPoolOk(c.maxReals);
    var b := BooksOf(Init(c));
    forall n: nat ensures Users(b, n) == 0 {
      assert VipUsers(b.members, n) == {} && RuleUsers(b.rules, n) == {};
    }
  }

  // ---------------------------------------------------------------------
  // Batches of reals
  // ---------------------------------------------------------------------

  ghost function Addresses(c: Config, rs: seq<NewReal>): set<Addr> {
    set r | r in rs && c.parse(r.address).Some? :: c.parse(r.address).value
  }

  /** The VIP's reals as if the updates collected so far had been applied. */
  ghost function Held(v: VipState, w: Work): set<nat> {
    Apply(v.reals, w.ureals).Keys
  }

  ghost function WorkBooks(b: Books, k: VipKey, v: VipState, w: Work): Books {
    b.(pool := w.pool, members := b.members[k := Held(v, w)])
  }

  /** In a deletion batch `cur_reals` lags behind, but only on addresses already handled. */
  ghost predicate LagsOn(v: VipState, w: Work, done: set<Addr>) {
    forall m: nat :: m in w.pool.names && m in w.cur && m !in Held(v, w) ==> w.pool.names[m] in done
  }

  lemma HeldAfter(v: VipState, w: Work, w': Work, u: UpdateReal)
    requires w'.ureals == w.ureals + [u]
    ensures Held(v, w') ==
            if u.action == Add then Held(v, w) + {u.updatedReal.num} else Held(v, w) - {u.updatedReal.num}
  {
  }

  /** A real joins the VIP and a reference is taken. */
  lemma JoinWork(b: Books, k: VipKey, v: VipState, w: Work, w': Work, a: Addr)
    requires k in b.members && Covered(WorkBooks(b, k, v, w))
    requires NumberFor(w.pool, a) != w.pool.max && w'.pool == Acquire(w.pool, a)
    requires Held(v, w') == Held(v, w) + {NumberFor(w.pool, a)}
    ensures Covered(WorkBooks(b, k, v, w'))
    ensures Exact(WorkBooks(b, k, v, w)) && NumberFor(w.pool, a) !in Held(v, w) ==> Exact(WorkBooks(b, k, v, w'))
  {
    hide Covered, Exact, Held, Acquire, NumberFor;
    JoinWorkExact(b, k, v, w, w', a);
  }

  lemma JoinWorkExact(b: Books, k: VipKey, v: VipState, w: Work, w': Work, a: Addr)
    requires k in b.members && Covered(WorkBooks(b, k, v, w))
    requires NumberFor(w.pool, a) != w.pool.max && w'.pool == Acquire(w.pool, a)
    requires Held(v, w') == Held(v, w) + {NumberFor(w.pool, a)}
    ensures Covered(WorkBooks(b, k, v, w'))
    ensures Exact(WorkBooks(b, k, v, w')) <==> Exact(WorkBooks(b, k, v, w)) && NumberFor(w.pool, a) !in Held(v, w)
  {
    hide Covered, Exact, Held, Acquire, NumberFor;
    var wb, n := WorkBooks(b, k, v, w), NumberFor(w.pool, a);
    JoinKeeps(wb, k, a);
    assert wb.members[k := wb.members[k] + {n}] == b.members[k := Held(v, w')];
  }

  /** A real leaves the VIP and its reference is released. */
  lemma LeaveWork(b: Books, k: VipKey, v: VipState, w: Work, w': Work, a: Addr)
    requires k in b.members && Covered(WorkBooks(b, k, v, w))
    requires a in w.pool.reals && w.pool.reals[a].num in Held(v, w) && w'.pool == Release(w.pool, a)
    requires Held(v, w') == Held(v, w) - {w.pool.reals[a].num}
    ensures Covered(WorkBooks(b, k, v, w')) && (Exact(WorkBooks(b, k, v, w)) ==> Exact(WorkBooks(b, k, v, w')))
  {
    hide Covered, Exact, Held, Release;
    var wb, n := WorkBooks(b, k, v, w), w.pool.reals[a].num;
    LeaveKeeps(wb, k, a);
    assert wb.members[k := wb.members[k] - {n}] == b.members[k := Held(v, w')];
  }

  /** The pool knows the address of a real it gave a number to. */
  lemma NumberIsNamed(p: Pool, a: Addr)
    requires PoolOk(p) && a in p.reals
    ensures p.reals[a].num in p.names && p.names[p.reals[a].num] == a
  {
  }

  lemma SameBooks(b: Books, k: VipKey, v: VipState, w: Work, w': Work)
    requires w'.pool == w.pool && Held(v, w') == Held(v, w)
    ensures WorkBooks(b, k, v, w') == WorkBooks(b, k, v, w)
  {
  }

  /** What adding one real does to the pool, to `cur_reals` and to the reals held. */
  lemma AddOneSets(c: Config, v: VipState, w: Work, r: NewReal, a: Addr)
    requires PoolOk(w.pool) && c.parse(r.address) == Some(a)
    ensures var w', n := AddOne(c, w, r), NumberFor(w.pool, a);
      && w'.pool == (if a in w.pool.reals && n in w.cur then w.pool else Acquire(w.pool, a))
      && w'.cur == (if a in w.pool.reals then w.cur + {n} else w.cur)
      && Held(v, w') == (if n == w.pool.max then Held(v, w) else Held(v, w) + {n})
  {
    var w', n := AddOne(c, w, r), NumberFor(w.pool, a);
    AcquireCounts(w.pool, a);
    if n != w.pool.max {
      HeldAfter(v, w, w', UpdateReal(Add, Endpoint(n, r.weight, c.hash(a))));
    }
  }

  /** What deleting one real does. */
  lemma DelOneSets(c: Config, v: VipState, w: Work, r: NewReal, a: Addr)
    requires c.parse(r.address) == Some(a)
    ensures var w', found := DelOne(c, w, r), a in w.pool.reals && w.pool.reals[a].num in w.cur;
      && w'.pool == (if found then Release(w.pool, a) else w.pool) && w'.cur == w.cur
      && Held(v, w') == (if found then Held(v, w) - {w.pool.reals[a].num} else Held(v, w))
  {
    var w' := DelOne(c, w, r);
    if a in w.pool.reals && w.pool.reals[a].num in w.cur {
      HeldAfter(v, w, w', UpdateReal(Del, Endpoint(w.pool.reals[a].num, 0, 0)));
    }
  }

  /** One real added: covered stays covered. */
  lemma AddOneKeeps(c: Config, b: Books, k: VipKey, v: VipState, w: Work, r: NewReal, a: Addr)
    requires k in b.members && c.parse(r.address) == Some(a)
    requires Covered(WorkBooks(b, k, v, w)) && w.cur <= Held(v, w)
    ensures var w' := AddOne(c, w, r); Covered(WorkBooks(b, k, v, w')) && w'.cur <= Held(v, w')
  {
    var w', n := AddOne(c, w, r), NumberFor(w.pool, a);
    assert PoolOk(w.pool);
    AcquireCounts(w.pool, a);
    AddOneSets(c, v, w, r, a);
    hide AddOne, Acquire, Held, PoolOk, Covered, RefCount, WorkBooks;
    if n == w.pool.max || (a in w.pool.reals && n in w.cur) {
      SameBooks(b, k, v, w, w');
    } else {
      JoinWork(b, k, v, w, w', a);
    }
  }

  /** One real deleted: it is still held, because its address did not occur in the batch before. */
  lemma DelOneKeeps(c: Config, b: Books, k: VipKey, v: VipState, w: Work, r: NewReal, done: set<Addr>, a: Addr)
    requires k in b.members && c.parse(r.address) == Some(a) && a !in done
    requires Covered(WorkBooks(b, k, v, w)) && LagsOn(v, w, done)
    ensures var w' := DelOne(c, w, r); Covered(WorkBooks(b, k, v, w')) && LagsOn(v, w', done + {a})
  {
    var w' := DelOne(c, w, r);
    DelOneSets(c, v, w, r, a);
    assert PoolOk(w.pool);
    hide DelOne, Release, Held, PoolOk, Covered, RefCount, WorkBooks;
    if a in w.pool.reals && w.pool.reals[a].num in w.cur {
      NumberIsNamed(w.pool, a);
      ReleaseCounts(w.pool, a);
      LeaveWork(b, k, v, w, w', a);
    } else {
      SameBooks(b, k, v, w, w');
    }
  }

  lemma AddressesAfter(c: Config, rs: seq<NewReal>, r: NewReal)
    ensures Addresses(c, rs + [r]) ==
            if c.parse(r.address).Some? then Addresses(c, rs) + {c.parse(r.address).value} else Addresses(c, rs)
  {
  }

  lemma NoneYet(b: Books, k: VipKey, v: VipState)
    requires k in b.members && b.members[k] == v.reals.Keys
    ensures WorkBooks(b, k, v, Work(b.pool, v.reals.Keys, [])) == b
  {
    assert b.members[k := b.members[k]] == b.members;
  }

  /** The whole loop over an addition batch. */
  lemma {:induction false} AddRealsKeeps(c: Config, b: Books, k: VipKey, v: VipState, rs: seq<NewReal>)
    requires k in b.members && b.members[k] == v.reals.Keys && Covered(b)
    ensures var w := DoReals(c, Add, Work(b.pool, v.reals.Keys, []), rs);
      Covered(WorkBooks(b, k, v, w)) && w.cur <= Held(v, w)
  {
    if rs == [] {
      NoneYet(b, k, v);
    } else {
      var front, r := rs[..|rs| - 1], rs[|rs| - 1];
      AddRealsKeeps(c, b, k, v, front);
      var w := DoReals(c, Add, Work(b.pool, v.reals.Keys, []), front);
      if c.parse(r.address).Some? {
        hide Covered, Held, AddOne;
        AddOneKeeps(c, b, k, v, w, r, c.parse(r.address).value);
      }
    }
  }

  /** The whole loop over a deletion batch without repetition. */
  lemma {:induction false} DelRealsKeeps(c: Config, b: Books, k: VipKey, v: VipState, rs: seq<NewReal>)
    requires k in b.members && b.members[k] == v.reals.Keys && Covered(b) && DistinctAddresses(c, rs)
    ensures var w := DoReals(c, Del, Work(b.pool, v.reals.Keys, []), rs);
      Covered(WorkBooks(b, k, v, w)) && LagsOn(v, w, Addresses(c, rs))
  {
    if rs == [] {
      NoneYet(b, k, v);
    } else {
      var front, r := rs[..|rs| - 1], rs[|rs| - 1];
      assert rs == front + [r];
      DelRealsKeeps(c, b, k, v, front);
      var w := DoReals(c, Del, Work(b.pool, v.reals.Keys, []), front);
      AddressesAfter(c, front, r);
      if c.parse(r.address).Some? {
        NotBefore(c, front, r);
        hide Covered, Held, DelOne, LagsOn, Addresses;
        DelOneKeeps(c, b, k, v, w, r, Addresses(c, front), c.parse(r.address).value);
      }
    }
  }

  lemma NotBefore(c: Config, front: seq<NewReal>, r: NewReal)
    requires DistinctAddresses(c, front + [r]) && c.parse(r.address).Some?
    ensures c.parse(r.address).value !in Addresses(c, front)
  {
    var rs := front + [r];
    forall x | x in front ensures c.parse(x.address) != c.parse(r.address) {
      var i :| 0 <= i < |front| && front[i] == x;
      assert rs[i] == x && rs[|front|] == r;
    }
  }

  /** The books after a batch are those of the loop. */
  lemma BatchBooks(c: Config, s: Lb, k: VipKey, action: ModifyAction, rs: seq<NewReal>, s': Lb)
    requires c.ringSize >= 2 && k in s.vips && ModifyRealsStep(c, s, k, action, rs, s')
    ensures BooksOf(s).members[k] == s.vips[k].reals.Keys
    ensures BooksOf(s') == WorkBooks(BooksOf(s), k, s.vips[k], WorkOf(c, s, k, action, rs))
  {
    hide DoReals, Apply, PushDelta, Diff, RingOf, AnyChange;
    var b, v := BooksOf(s), s.vips[k];
    assert BooksOf(s').members == b.members[k := Held(v, WorkOf(c, s, k, action, rs))];
  }

  lemma ModifyRealsKeeps(c: Config, s: Lb, k: VipKey, action: ModifyAction, rs: seq<NewReal>, s': Lb)
    requires c.ringSize >= 2 && ModifyRealsStep(c, s, k, action, rs, s') && Covered(BooksOf(s))
    requires action == Del ==> DistinctAddresses(c, rs)
    ensures Covered(BooksOf(s'))
  {
    if k in s.vips {
      BatchBooks(c, s, k, action, rs, s');
      hide Covered, DoReals, ModifyRealsStep, WorkBooks, BooksOf, Held;
      if action == Add {
        AddRealsKeeps(c, BooksOf(s), k, s.vips[k], rs);
      } else {
        DelRealsKeeps(c, BooksOf(s), k, s.vips[k], rs);
      }
    }
  }

  // ---------------------------------------------------------------------
  // Deleting a VIP
  // ---------------------------------------------------------------------

  lemma LivesInPool(b: Books, n: nat)
    requires Covered(b) && n in b.pool.names
    ensures b.pool.names[n] in b.pool.reals && b.pool.reals[b.pool.names[n]].num == n
  {
  }

  lemma {:induction false} ReleaseAllKeeps(b: Books, k: VipKey, nums: seq<nat>)
    requires k in b.members && Covered(b) && Distinct(nums) && Elements(nums) <= b.members[k]
    ensures var b' := b.(pool := ReleaseAll(b.pool, nums), members := b.members[k := b.members[k] - Elements(nums)]);
      Covered(b') && (Exact(b) ==> Exact(b'))
  {
    hide Covered, Exact, Release;
    if nums == [] {
      assert b.members[k] - Elements(nums) == b.members[k];
      assert b.members[k := b.members[k]] == b.members;
    } else {
      var front, n := nums[..|nums| - 1], nums[|nums| - 1];
      assert nums == front + [n] && n in nums;
      assert Elements(nums) == Elements(front) + {n};
      ReleaseAllKeeps(b, k, front);
      var m := b.(pool := ReleaseAll(b.pool, front), members := b.members[k := b.members[k] - Elements(front)]);
      assert n in m.members[k];
      CoveredIsLive(m, k, n);
      LivesInPool(m, n);
      LeaveKeeps(m, k, m.pool.names[n]);
      assert m.members[k] - {n} == b.members[k] - Elements(nums);
      var b' := b.(pool := ReleaseAll(b.pool, nums), members := b.members[k := b.members[k] - Elements(nums)]);
      assert b'.members == m.members[k := m.members[k] - {n}];
    }
  }

  lemma DropEmptyMember(b: Books, k: VipKey)
    requires k in b.members && b.members[k] == {}
    ensures Covered(b) ==> Covered(b.(members := b.members - {k}))
    ensures Exact(b) ==> Exact(b.(members := b.members - {k}))
  {
    var b' := b.(members := b.members - {k});
    forall n: nat ensures Users(b', n) == Users(b, n) {
      assert VipUsers(b'.members, n) == VipUsers(b.members, n);
    }
  }

  lemma DelVipKeeps(c: Config, s: Lb, k: VipKey, s': Lb)
    requires DelVipStep(c, s, k, s') && Covered(BooksOf(s))
    ensures Covered(BooksOf(s')) && (Exact(BooksOf(s)) ==> Exact(BooksOf(s')))
  {
    hide Covered, Exact, ReleaseAll;
    if k in s.vips {
      var nums :| Enumerates(nums, s.vips[k].reals.Keys) && s' == DoDelVip(c, s, k, nums);
      var b := BooksOf(s);
      ReleaseAllKeeps(b, k, nums);
      var m := b.(pool := ReleaseAll(b.pool, nums), members := b.members[k := b.members[k] - Elements(nums)]);
      assert b.members[k] - Elements(nums) == {};
      DropEmptyMember(m, k);
      assert BooksOf(s').members == m.members - {k};
    }
  }

  // ---------------------------------------------------------------------
  // The other calls
  // ---------------------------------------------------------------------

  lemma AddVipKeeps(c: Config, s: Lb, k: VipKey, flags: bv32)
    requires Covered(BooksOf(s))
    ensures Covered(BooksOf(DoAddVip(c, s, k, flags)))
    ensures Exact(BooksOf(s)) ==> Exact(BooksOf(DoAddVip(c, s, k, flags)))
  {
    hide Def, EmptyRing, MetaFor, PoolOk;
    var s' := DoAddVip(c, s, k, flags);
    var b, b' := BooksOf(s), BooksOf(s');
    assert b'.pool == b.pool && b'.quic == b.quic && b'.rules == b.rules;
    forall n: nat ensures Users(b', n) == Users(b, n) {
      assert VipUsers(b'.members, n) == VipUsers(b.members, n);
    }
  }

  lemma ModifyVipKeeps(c: Config, s: Lb, k: VipKey, flags: bv32, on: bool)
    ensures BooksOf(DoModifyVip(c, s, k, flags, on)) == BooksOf(s)
  {
    hide MetaFor, Def, NewFlags;
    var s' := DoModifyVip(c, s, k, flags, on);
    assert forall j :: j in s.vips ==> s'.vips[j].reals == s.vips[j].reals;
    assert MembersOf(s'.vips) == MembersOf(s.vips);
  }

  lemma {:induction false} AddRulesKeeps(c: Config, s: Lb, srcs: seq<Net>, dst: Addr)
    requires Covered(BooksOf(s))
    ensures Covered(BooksOf(AddRules(c, s, srcs, dst).0))
  {
    if srcs != [] {
      var front, src := srcs[..|srcs| - 1], srcs[|srcs| - 1];
      AddRulesKeeps(c, s, front, dst);
      AddRuleBooks(AddRules(c, s, front, dst).0, src, dst);
      hide Covered, BooksOf, Acquire, AddRule, NumberFor;
    }
  }

  /** One rule, or one attempt without a number. */
  lemma AddRuleBooks(s: Lb, src: Net, dst: Addr)
    requires Covered(BooksOf(s))
    ensures NumberFor(s.pool, dst) == s.pool.max ==> s.(pool := Acquire(s.pool, dst)) == s
    ensures NumberFor(s.pool, dst) != s.pool.max ==>
      var s' := AddRule(s, src, dst);
      Covered(BooksOf(s')) && (Exact(BooksOf(s')) <==> Exact(BooksOf(s)) && src !in s.rules)
  {
    assert PoolOk(s.pool);
    AcquireCounts(s.pool, dst);
    if NumberFor(s.pool, dst) != s.pool.max {
      AddRuleKeeps(BooksOf(s), src, dst);
    }
  }

  lemma {:induction false} DelRulesKeeps(s: Lb, srcs: seq<Net>)
    requires Covered(BooksOf(s))
    ensures Covered(BooksOf(DelRules(s, srcs))) && (Exact(BooksOf(s)) ==> Exact(BooksOf(DelRules(s, srcs))))
    ensures DelRules(s, srcs).vips == s.vips && DelRules(s, srcs).quic == s.quic
  {
    if srcs != [] {
      var front, src := srcs[..|srcs| - 1], srcs[|srcs| - 1];
      DelRulesKeeps(s, front);
      var s1 := DelRules(s, front);
      if src in s1.rules {
        DelRuleKeeps(BooksOf(s1), src);
      }
    }
  }

  lemma {:induction false} QuicKeeps(c: Config, action: ModifyAction, s: Lb, qs: seq<QuicReal>)
    requires Covered(BooksOf(s))
    ensures Covered(BooksOf(QuicAll(c, action, s, qs)))
    ensures Exact(BooksOf(s)) ==> Exact(BooksOf(QuicAll(c, action, s, qs)))
    ensures QuicAll(c, action, s, qs).vips == s.vips && QuicAll(c, action, s, qs).rules == s.rules
  {
    if qs != [] {
      var front, q := qs[..|qs| - 1], qs[|qs| - 1];
      QuicKeeps(c, action, s, front);
      QuicOneKeeps(c, action, QuicAll(c, action, s, front), q);
    }
  }

  lemma QuicOneKeeps(c: Config, action: ModifyAction, s: Lb, q: QuicReal)
    requires Covered(BooksOf(s))
    ensures Covered(BooksOf(QuicOne(c, action, s, q)))
    ensures Exact(BooksOf(s)) ==> Exact(BooksOf(QuicOne(c, action, s, q)))
    ensures QuicOne(c, action, s, q).vips == s.vips && QuicOne(c, action, s, q).rules == s.rules
  {
    if c.parse(q.address).Some? && q.id <= MAX_QUIC_ID {
      assert PoolOk(s.pool);
      hide Covered, Exact, PoolOk, Acquire, Release, BooksOf;
      var a := c.parse(q.address).value;
      if action == Del {
        if a in s.quic { DelQuicBooks(s, a); }
      } else if a !in s.quic {
        AddQuicBooks(s, a, q.id);
      }
    }
  }

  lemma DelQuicBooks(s: Lb, a: Addr)
    requires Covered(BooksOf(s)) && a in s.quic
    ensures var s' := s.(pool := Release(s.pool, a), quic := s.quic - {a});
      Covered(BooksOf(s')) && (Exact(BooksOf(s)) ==> Exact(BooksOf(s')))
  {
    hide Covered, Exact, Release, MembersOf;
    DelQuicKeeps(BooksOf(s), a);
    assert (s.quic - {a}).Keys == s.quic.Keys - {a};
  }

  lemma AddQuicBooks(s: Lb, a: Addr, id: nat)
    requires Covered(BooksOf(s)) && a !in s.quic
    ensures NumberFor(s.pool, a) == s.pool.max ==> s.(pool := Acquire(s.pool, a)) == s
    ensures NumberFor(s.pool, a) != s.pool.max ==>
      var s' := s.(pool := Acquire(s.pool, a), quic := s.quic[a := id],
                   kernel := s.kernel.(quic := s.kernel.quic[id := NumberFor(s.pool, a)]));
      Covered(BooksOf(s')) && (Exact(BooksOf(s)) ==> Exact(BooksOf(s')))
  {
    assert PoolOk(s.pool);
    AcquireCounts(s.pool, a);
    hide Covered, Exact, Acquire, MembersOf, PoolOk, RefCount;
    if NumberFor(s.pool, a) != s.pool.max {
      AddQuicKeeps(BooksOf(s), a);
      assert s.quic[a := id].Keys == s.quic.Keys + {a};
    }
  }

  /** Reading numbers changes no count. */
  lemma ReadsKeep(s: Lb, nums: set<nat>)
    requires Covered(BooksOf(s))
    ensures var s' := s.(pool := Subscript(s.pool, nums));
      Covered(BooksOf(s')) && (Exact(BooksOf(s')) <==> Exact(BooksOf(s)))
  {
    hide Covered, Exact, Subscript;
    ReadKeeps(BooksOf(s), nums);
  }

  // ---------------------------------------------------------------------
  // Every step, every run
  // ---------------------------------------------------------------------

  /** Every call keeps every number in use out of the free list, if deletion batches do not repeat an address. */
  lemma StepKeepsReferences(c: Config, s: Lb, op: Op, s': Lb)
    requires c.ringSize >= 2 && Covered(BooksOf(s)) && DistinctDeletes(c, op) && Step(c, s, op, s')
    ensures Covered(BooksOf(s'))
  {
    hide Covered, Exact, BooksOf, DoAddVip, AddRules, DelRules, QuicAll, DoModifyVip, ModifyRealsStep, DelVipStep;
    match op
    case AddVip(k, flags) => AddVipKeeps(c, s, k, flags);
    case DelVip(k) => DelVipKeeps(c, s, k, s');
    case ModifyVip(k, flags, on) => ModifyVipKeeps(c, s, k, flags, on);
    case ModifyReals(k, action, rs) => ModifyRealsKeeps(c, s, k, action, rs, s');
    case AddSrcRules(srcs, dst) => AddRulesKeeps(c, s, srcs, dst);
    case DelSrcRules(srcs) => DelRulesKeeps(s, srcs);
    case ClearSrcRules =>
      var srcs :| Distinct(srcs) && Elements(srcs) == s.rules.Keys && s' == DelRules(s, srcs);
      DelRulesKeeps(s, srcs);
    case ModifyQuic(action, qs) => QuicKeeps(c, action, s, qs);
    case GetReals(k) => if k in s.vips { ReadsKeep(s, s.vips[k].reals.Keys); }
    case GetSrcRules => ReadsKeep(s, s.rules.Values);
  }
}
