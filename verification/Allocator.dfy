/**
 Numbers for reals and the reference counts that keep them alive (KatranLb.cpp): a real is
 shared by VIPs, QUIC mappings and source-routing rules, and its number returns to the pool
 when the last reference is released.
 */
module Allocator {
  import opened Options
  import opened Residues

  /** An IP address as the words the kernel sees. */
  datatype Addr = V4(word: nat) | V6(w0: nat, w1: nat, w2: nat, w3: nat)

  datatype RealMeta = RealMeta(num: nat, refCount: nat)

  /**
   `free` is realNums_ and `reals` is reals_. numToReals_ is `names`, its entries with an
   address, and `blank`, the numbers whose entry is an empty address, which reading a missing
   number inserts. `mirror` is the kernel's table of reals, which is written when a number is
   given out and never cleared.
   */
  datatype Pool = Pool(max: nat, free: seq<nat>, reals: map<Addr, RealMeta>, names: map<nat, Addr>,
                       mirror: map<nat, Addr>, blank: set<nat>)

  function NewPool(max: nat): Pool {
    Pool(max, seq(max, i => i), map[], map[], map[], {})
  }

  /** numToReals_ as one map; the empty address is `None`. */
  function NumToReals(p: Pool): map<nat, Option<Addr>> {
    map n | n in p.names.Keys + p.blank :: if n in p.names then Some(p.names[n]) else None
  }

  /** reals_ and numToReals_ are inverse to each other. */
  ghost predicate MapsInverse(p: Pool) {
    && (forall n :: n in NumToReals(p) ==>
          var a := NumToReals(p)[n]; a.Some? && a.value in p.reals && p.reals[a.value].num == n)
    && (forall a :: a in p.reals ==>
          p.reals[a].num in NumToReals(p) && NumToReals(p)[p.reals[a].num] == Some(a))
  }

  /**
   Free and live numbers partition 0..max-1, every live number stands for its real, here and
   in the kernel, and an empty address stands only for numbers that are not live.
   */
  ghost predicate PoolOk(p: Pool) {
    && Distinct(p.free)
    && (forall n :: n in p.free ==> n < p.max && n !in p.names)
    && (forall n: nat :: n < p.max ==> n in p.free || n in p.names)
    && (forall n :: n in p.names ==> n < p.max && p.names[n] in p.reals && p.reals[p.names[n]].num == n)
    && (forall a :: a in p.reals ==>
          p.reals[a].refCount >= 1 && p.reals[a].num in p.names && p.names[p.reals[a].num] == a)
    && (forall n :: n in p.names ==> n in p.mirror && p.mirror[n] == p.names[n])
    && (forall n :: n in p.blank ==> n !in p.names)
  }

  lemma InverseIffNoBlank(p: Pool)
    requires PoolOk(p)
    ensures MapsInverse(p) <==> p.blank == {}
  {
    if n :| n in p.blank {
      assert n in NumToReals(p) && NumToReals(p)[n] == None;
    }
  }

  /** References held on number `n`; 0 when the number is free. */
  function RefCount(p: Pool, n: nat): nat {
    if n in p.names && p.names[n] in p.reals then p.reals[p.names[n]].refCount else 0
  }

  /** Number that `Acquire` returns; `max` means that the numbers are exhausted. */
  function NumberFor(p: Pool, a: Addr): nat {
    if a in p.reals then p.reals[a].num else if p.free == [] then p.max else p.free[0]
  }

  /** increaseRefCountForReal */
  function Acquire(p: Pool, a: Addr): Pool {
    if a in p.reals then
      p.(reals := p.reals[a := RealMeta(p.reals[a].num, p.reals[a].refCount + 1)])
    else if p.free == [] then p
    else
      var n := p.free[0];
      p.(free := p.free[1..], names := p.names[n := a], reals := p.reals[a := RealMeta(n, 1)],
         mirror := p.mirror[n := a], blank := p.blank - {n})
  }

  /** decreaseRefCountForReal */
  function Release(p: Pool, a: Addr): Pool {
    if a !in p.reals then p
    else if p.reals[a].refCount <= 1 then
      var n := p.reals[a].num;
      p.(free := p.free + [n], reals := p.reals - {a}, names := p.names - {n}, blank := p.blank - {n})
    else
      p.(reals := p.reals[a := RealMeta(p.reals[a].num, p.reals[a].refCount - 1)])
  }

  /** Reading numToReals_ with a subscript: missing numbers get an empty address. */
  function Subscript(p: Pool, nums: set<nat>): Pool {
    p.(blank := p.blank + (nums - p.names.Keys))
  }

  /** Reads the real of a number and releases it; no real has an empty address. */
  function ReleaseNumber(p: Pool, n: nat): Pool {
    if n in p.names then Release(p, p.names[n]) else Subscript(p, {n})
  }

  lemma NewPoolOk(max: nat)
    ensures PoolOk(NewPool(max))
  {
    var p := NewPool(max);
    forall n: nat | n < max ensures n in p.free {
      assert p.free[n] == n;
    }
  }

  lemma AcquireKeepsPool(p: Pool, a: Addr)
    requires PoolOk(p)
    ensures PoolOk(Acquire(p, a))
  {
    if a !in p.reals && p.free != [] {
      assert p.free[0] in p.free;
      var p' := Acquire(p, a);
      assert forall n :: n in p'.free ==> n in p.free && n != p.free[0];
      assert forall n :: n in p.free && n != p.free[0] ==> n in p'.free;
    }
  }

  /** Taking a reference counts once on the number returned and on no other. */
  lemma AcquireCounts(p: Pool, a: Addr)
    requires PoolOk(p)
    ensures PoolOk(Acquire(p, a))
    ensures NumberFor(p, a) == p.max <==> a !in p.reals && p.free == []
    ensures NumberFor(p, a) == p.max ==> Acquire(p, a) == p
    ensures NumberFor(p, a) != p.max ==>
      var n, p' := NumberFor(p, a), Acquire(p, a);
      && n in p'.names && p'.names[n] == a && a in p'.reals && p'.reals.Keys == p.reals.Keys + {a}
      && p'.names == p.names[n := a]
      && (n in p.names ==> p.names[n] == a)
      && forall m: nat :: RefCount(p', m) == RefCount(p, m) + if m == n then 1 else 0
  {
    AcquireKeepsPool(p, a);
    if a !in p.reals && p.free != [] {
      assert p.free[0] in p.free;
    }
  }

  /** The number returned stands for the address. */
  lemma AcquireNames(p: Pool, a: Addr)
    requires PoolOk(p) && NumberFor(p, a) != p.max
    ensures var n, p' := NumberFor(p, a), Acquire(p, a);
      && a in p'.reals && p'.reals[a].num == n && p'.names == p.names[n := a] && (n in p.names ==> p.names[n] == a)
      && p'.reals.Keys == p.reals.Keys + {a} && forall x :: x in p.reals ==> p'.reals[x].num == p.reals[x].num
  {
    AcquireCounts(p, a);
  }

  lemma ReleaseKeepsPool(p: Pool, a: Addr)
    requires PoolOk(p)
    ensures PoolOk(Release(p, a))
  {
    if a in p.reals {
      var n, p' := p.reals[a].num, Release(p, a);
      assert p'.free == p.free || p'.free == p.free + [n];
      assert forall m: nat :: m < p.max && m != n && m in p.free ==> m in p'.free;
    }
  }

  /** Releasing counts down once on the real's number and on no other. */
  lemma ReleaseCounts(p: Pool, a: Addr)
    requires PoolOk(p)
    ensures PoolOk(Release(p, a))
    ensures a !in p.reals ==> Release(p, a) == p
    ensures a in p.reals ==>
      var n, p' := p.reals[a].num, Release(p, a);
      && (forall m: nat :: RefCount(p', m) == RefCount(p, m) - if m == n then 1 else 0)
      && (forall m: nat :: m in p'.names ==> m in p.names && p'.names[m] == p.names[m])
      && (forall x :: x in p'.reals ==> x in p.reals && p'.reals[x].num == p.reals[x].num)
      && (forall x :: x in p.reals && x != a ==> x in p'.reals)
      && (a in p'.reals <==> p.reals[a].refCount > 1)
  {
    ReleaseKeepsPool(p, a);
  }

  // ---------------------------------------------------------------------
  // First released, first reused
  // ---------------------------------------------------------------------

  datatype PoolOp = Take(a: Addr) | GiveBack(a: Addr) | Read(nums: set<nat>)

  function Do(p: Pool, op: PoolOp): Pool {
    match op
    case Take(a) => Acquire(p, a)
    case GiveBack(a) => Release(p, a)
    case Read(nums) => Subscript(p, nums)
  }

  /** The number a call takes out of the pool, if any. */
  function Issued(p: Pool, op: PoolOp): seq<nat> {
    if op.Take? && op.a !in p.reals && p.free != [] then [p.free[0]] else []
  }

  /** The number a call gives back to the pool, if any. */
  function Returned(p: Pool, op: PoolOp): seq<nat> {
    if op.GiveBack? && op.a in p.reals && p.reals[op.a].refCount <= 1 then [p.reals[op.a].num] else []
  }

  function DoAll(p: Pool, ops: seq<PoolOp>): Pool
    decreases ops
  {
    if ops == [] then p else DoAll(Do(p, ops[0]), ops[1..])
  }

  function AllIssued(p: Pool, ops: seq<PoolOp>): seq<nat>
    decreases ops
  {
    if ops == [] then [] else Issued(p, ops[0]) + AllIssued(Do(p, ops[0]), ops[1..])
  }

  function AllReturned(p: Pool, ops: seq<PoolOp>): seq<nat>
    decreases ops
  {
    if ops == [] then [] else Returned(p, ops[0]) + AllReturned(Do(p, ops[0]), ops[1..])
  }

  /**
   Over any run, the numbers given out are, in order, those that were free at the start
   followed by those given back since: what is not yet given out is what is free at the end.
   */
  lemma {:induction false} FirstReleasedFirstReused(p: Pool, ops: seq<PoolOp>)
    ensures p.free + AllReturned(p, ops) == AllIssued(p, ops) + DoAll(p, ops).free
    decreases ops
  {
    if ops != [] {
      var q := Do(p, ops[0]);
      hide Do, Returned, Issued;
      FirstReleasedFirstReused(q, ops[1..]);
      QueueStep(p, ops[0]);
      Splice(p.free, Returned(p, ops[0]), Issued(p, ops[0]), q.free,
             AllReturned(q, ops[1..]), AllIssued(q, ops[1..]), DoAll(q, ops[1..]).free);
    }
  }

  lemma QueueStep(p: Pool, op: PoolOp)
    ensures p.free + Returned(p, op) == Issued(p, op) + Do(p, op).free
  {
  }

  lemma Splice(f: seq<nat>, r: seq<nat>, i: seq<nat>, q: seq<nat>, rs: seq<nat>, iss: seq<nat>, e: seq<nat>)
    requires f + r == i + q && q + rs == iss + e
    ensures f + (r + rs) == (i + iss) + e
  {
    assert f + (r + rs) == (f + r) + rs == i + (q + rs);
  }

  /** Every run of references taken, released and read keeps the pool sound. */
  lemma {:induction false} PoolRunOk(p: Pool, ops: seq<PoolOp>)
    requires PoolOk(p)
    ensures PoolOk(DoAll(p, ops))
    decreases ops
  {
    if ops != [] {
      if ops[0].Take? {
        AcquireCounts(p, ops[0].a);
      } else if ops[0].GiveBack? {
        ReleaseCounts(p, ops[0].a);
      }
      PoolRunOk(Do(p, ops[0]), ops[1..]);
    }
  }

  // ---------------------------------------------------------------------
  // Who holds references
  // ---------------------------------------------------------------------

  datatype VipKey = VipKey(address: string, port: nat, proto: nat)

  datatype Net = Net(addr: Addr, prefixLen: nat)

  /** The pool and everything that may hold a reference. */
  datatype Books = Books(pool: Pool, members: map<VipKey, set<nat>>, quic: set<Addr>, rules: map<Net, nat>)

  ghost function VipUsers(members: map<VipKey, set<nat>>, n: nat): set<VipKey> {
    set k | k in members && n in members[k]
  }

  ghost function RuleUsers(rules: map<Net, nat>, n: nat): set<Net> {
    set r | r in rules && rules[r] == n
  }

  ghost function QuicUsers(b: Books, n: nat): nat {
    if n in b.pool.names && b.pool.names[n] in b.quic then 1 else 0
  }

  /** VIPs that contain the real, plus its QUIC mapping, plus the source rules that point at it. */
  ghost function Users(b: Books, n: nat): nat {
    |VipUsers(b.members, n)| + |RuleUsers(b.rules, n)| + QuicUsers(b, n)
  }

  /** No number has more users than references, so no number in use is free. */
  ghost predicate Covered(b: Books) {
    && PoolOk(b.pool)
    && (forall a :: a in b.quic ==> a in b.pool.reals)
    && forall n: nat :: RefCount(b.pool, n) >= Users(b, n)
  }

  ghost predicate Exact(b: Books) {
    Covered(b) && forall n: nat :: RefCount(b.pool, n) == Users(b, n)
  }

  lemma CoveredIsLive(b: Books, k: VipKey, n: nat)
    requires Covered(b) && k in b.members && n in b.members[k]
    ensures n in b.pool.names
  {
    assert k in VipUsers(b.members, n);
    assert Users(b, n) >= 1;
    assert RefCount(b.pool, n) >= 1;
  }

  lemma CoveredRuleIsLive(b: Books, r: Net)
    requires Covered(b) && r in b.rules
    ensures b.rules[r] in b.pool.names
  {
    assert r in RuleUsers(b.rules, b.rules[r]);
    assert Users(b, b.rules[r]) >= 1;
    assert RefCount(b.pool, b.rules[r]) >= 1;
  }

  /** Empty addresses do not count. */
  lemma ReadKeeps(b: Books, nums: set<nat>)
    requires Covered(b)
    ensures var b' := b.(pool := Subscript(b.pool, nums)); Covered(b') && (Exact(b') <==> Exact(b))
  {
    var b' := b.(pool := Subscript(b.pool, nums));
    forall n: nat
      ensures RefCount(b'.pool, n) == RefCount(b.pool, n) && Users(b', n) == Users(b, n)
    {
    }
  }

  lemma VipUsersUpdate(members: map<VipKey, set<nat>>, k: VipKey, s: set<nat>, m: nat)
    requires k in members
    ensures VipUsers(members[k := s], m)
         == if m in s then VipUsers(members, m) + {k} else VipUsers(members, m) - {k}
    ensures |VipUsers(members[k := s], m)|
         == |VipUsers(members, m)| + (if m in s then 1 else 0) - if m in members[k] then 1 else 0
  {
  }

  lemma RuleUsersUpdate(rules: map<Net, nat>, r: Net, n: nat, m: nat)
    ensures |RuleUsers(rules[r := n], m)|
         == |RuleUsers(rules, m)| + (if m == n then 1 else 0) - if r in rules && rules[r] == m then 1 else 0
  {
    var u, u' := RuleUsers(rules, m), RuleUsers(rules[r := n], m);
    assert u' == if m == n then u + {r} else u - {r};
    assert r in u <==> r in rules && rules[r] == m;
  }

  lemma RuleUsersRemove(rules: map<Net, nat>, r: Net, m: nat)
    requires r in rules
    ensures |RuleUsers(rules - {r}, m)| == |RuleUsers(rules, m)| - if rules[r] == m then 1 else 0
  {
    var u := RuleUsers(rules, m);
    assert RuleUsers(rules - {r}, m) == u - {r};
    assert r in u <==> rules[r] == m;
  }

  // ---------------------------------------------------------------------
  // What every single action keeps
  // ---------------------------------------------------------------------

  /** A VIP gains a real and a reference is taken for it. */
  lemma JoinKeeps(b: Books, k: VipKey, a: Addr)
    requires Covered(b) && k in b.members && NumberFor(b.pool, a) != b.pool.max
    ensures var n := NumberFor(b.pool, a);
      var b' := b.(pool := Acquire(b.pool, a), members := b.members[k := b.members[k] + {n}]);
      Covered(b') && (Exact(b') <==> Exact(b) && n !in b.members[k])
  {
    var n := NumberFor(b.pool, a);
    var b' := b.(pool := Acquire(b.pool, a), members := b.members[k := b.members[k] + {n}]);
    AcquireCounts(b.pool, a);
    hide Acquire, NumberFor, PoolOk;
    forall m: nat
      ensures Users(b', m) == Users(b, m) + if m == n && n !in b.members[k] then 1 else 0
      ensures RefCount(b'.pool, m) == RefCount(b.pool, m) + if m == n then 1 else 0
    {
      JoinUsers(b, k, a, m);
    }
    hide Users, RefCount;
    assert RefCount(b'.pool, n) == RefCount(b.pool, n) + 1;
    if m: nat :| RefCount(b.pool, m) > Users(b, m) {
      assert RefCount(b'.pool, m) > Users(b', m);
    }
  }

  lemma JoinUsers(b: Books, k: VipKey, a: Addr, m: nat)
    requires Covered(b) && k in b.members && NumberFor(b.pool, a) != b.pool.max
    ensures var n := NumberFor(b.pool, a);
      var b' := b.(pool := Acquire(b.pool, a), members := b.members[k := b.members[k] + {n}]);
      Users(b', m) == Users(b, m) + if m == n && n !in b.members[k] then 1 else 0
  {
    var n := NumberFor(b.pool, a);
    AcquireCounts(b.pool, a);
    hide Acquire, NumberFor;
    VipUsersUpdate(b.members, k, b.members[k] + {n}, m);
    assert n !in b.pool.names ==> a !in b.quic;
  }

  /** A VIP loses a real and its reference is released. */
  lemma LeaveKeeps(b: Books, k: VipKey, a: Addr)
    requires Covered(b) && k in b.members && a in b.pool.reals && b.pool.reals[a].num in b.members[k]
    ensures var n := b.pool.reals[a].num;
      var b' := b.(pool := Release(b.pool, a), members := b.members[k := b.members[k] - {n}]);
      Covered(b') && (Exact(b) ==> Exact(b'))
  {
    var n := b.pool.reals[a].num;
    var b' := b.(pool := Release(b.pool, a), members := b.members[k := b.members[k] - {n}]);
    ReleaseCounts(b.pool, a);
    assert RefCount(b.pool, n) == b.pool.reals[a].refCount;
    assert k in VipUsers(b.members, n);
    hide Release, PoolOk;
    forall m: nat
      ensures Users(b', m) == Users(b, m) - if m == n then 1 else 0
      ensures RefCount(b'.pool, m) == RefCount(b.pool, m) - if m == n then 1 else 0
    {
      LeaveUsers(b, k, a, m);
    }
    assert RefCount(b.pool, n) >= Users(b, n);
  }

  lemma LeaveUsers(b: Books, k: VipKey, a: Addr, m: nat)
    requires Covered(b) && k in b.members && a in b.pool.reals && b.pool.reals[a].num in b.members[k]
    ensures var n := b.pool.reals[a].num;
      var b' := b.(pool := Release(b.pool, a), members := b.members[k := b.members[k] - {n}]);
      Users(b', m) == Users(b, m) - if m == n then 1 else 0
  {
    var n := b.pool.reals[a].num;
    ReleaseCounts(b.pool, a);
    VipUsersUpdate(b.members, k, b.members[k] - {n}, m);
    assert k in VipUsers(b.members, n) && RefCount(b.pool, m) >= Users(b, m);
    hide Release;
    assert m != n && m in b.pool.names ==> m in Release(b.pool, a).names;
  }

  /** A source rule is set and a reference taken, whatever the prefix pointed at before. */
  lemma AddRuleKeeps(b: Books, r: Net, a: Addr)
    requires Covered(b) && NumberFor(b.pool, a) != b.pool.max
    ensures var b' := b.(pool := Acquire(b.pool, a), rules := b.rules[r := NumberFor(b.pool, a)]);
      Covered(b') && (Exact(b') <==> Exact(b) && r !in b.rules)
  {
    var n := NumberFor(b.pool, a);
    var b' := b.(pool := Acquire(b.pool, a), rules := b.rules[r := n]);
    AcquireCounts(b.pool, a);
    hide Acquire, NumberFor;
    forall m: nat
      ensures Users(b', m) == Users(b, m) + (if m == n then 1 else 0) - if r in b.rules && b.rules[r] == m then 1 else 0
      ensures RefCount(b'.pool, m) == RefCount(b.pool, m) + if m == n then 1 else 0
    {
      RuleUsersUpdate(b.rules, r, n, m);
      assert n !in b.pool.names ==> a !in b.quic;
    }
    if r in b.rules {
      assert RefCount(b'.pool, b.rules[r]) == RefCount(b.pool, b.rules[r]) + if b.rules[r] == n then 1 else 0;
    }
  }

  lemma DelRuleKeeps(b: Books, r: Net)
    requires Covered(b) && r in b.rules
    ensures b.rules[r] in b.pool.names
    ensures var b' := b.(pool := Release(b.pool, b.pool.names[b.rules[r]]), rules := b.rules - {r});
      Covered(b') && (Exact(b) ==> Exact(b'))
  {
    CoveredRuleIsLive(b, r);
    var n := b.rules[r];
    var a := b.pool.names[n];
    var b' := b.(pool := Release(b.pool, a), rules := b.rules - {r});
    ReleaseCounts(b.pool, a);
    hide Release;
    assert r in RuleUsers(b.rules, n);
    assert RefCount(b.pool, n) == b.pool.reals[a].refCount >= Users(b, n);
    forall m: nat
      ensures Users(b', m) == Users(b, m) - if m == n then 1 else 0
      ensures RefCount(b'.pool, m) == RefCount(b.pool, m) - if m == n then 1 else 0
    {
      RuleUsersRemove(b.rules, r, m);
      assert RefCount(b.pool, m) >= Users(b, m);
      assert m != n && m in b.pool.names ==> m in b'.pool.names;
    }
  }

  lemma AddQuicKeeps(b: Books, a: Addr)
    requires Covered(b) && a !in b.quic && NumberFor(b.pool, a) != b.pool.max
    ensures var b' := b.(pool := Acquire(b.pool, a), quic := b.quic + {a});
      Covered(b') && (Exact(b) ==> Exact(b'))
  {
    var n := NumberFor(b.pool, a);
    var b' := b.(pool := Acquire(b.pool, a), quic := b.quic + {a});
    AcquireCounts(b.pool, a);
    hide Acquire, NumberFor;
    forall m: nat
      ensures Users(b', m) == Users(b, m) + if m == n then 1 else 0
      ensures RefCount(b'.pool, m) == RefCount(b.pool, m) + if m == n then 1 else 0
    {
    }
  }

  lemma DelQuicKeeps(b: Books, a: Addr)
    requires Covered(b) && a in b.quic
    ensures var b' := b.(pool := Release(b.pool, a), quic := b.quic - {a});
      Covered(b') && (Exact(b) ==> Exact(b'))
  {
    var n := b.pool.reals[a].num;
    var b' := b.(pool := Release(b.pool, a), quic := b.quic - {a});
    ReleaseCounts(b.pool, a);
    forall m: nat
      ensures Users(b', m) == Users(b, m) - if m == n then 1 else 0
      ensures RefCount(b'.pool, m) == RefCount(b.pool, m) - if m == n then 1 else 0
    {
      assert m != n && m in b.pool.names ==> m in b'.pool.names;
    }
  }
}
