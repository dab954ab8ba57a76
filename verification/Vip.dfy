/**
 One virtual IP (Vip.cpp): its reals with their weights and hashes, its ring, and the
 delta between the old and the new ring that is sent to the forwarding plane.
 */
module Vips {
  import opened Residues
  import opened Probing
  import opened Maglev

  datatype ModifyAction = Add | Del

  datatype UpdateReal = UpdateReal(action: ModifyAction, updatedReal: Endpoint)

  datatype VipRealMeta = VipRealMeta(weight: nat, hash: nat)

  datatype RealPos = RealPos(realNum: int, pos: nat)

  type Reals = map<nat, VipRealMeta>

  datatype VipState = VipState(num: nat, flags: bv32, reals: Reals, ring: seq<int>)

  /** Setting adds the given bits, unsetting removes them. */
  function NewFlags(before: bv32, flags: bv32, on: bool): bv32 {
    if on then before | flags else before & !flags
  }

  // ---------------------------------------------------------------------
  // The reals after a batch
  // ---------------------------------------------------------------------

  /** Looking up a missing real creates it with weight and hash 0. */
  function MetaOf(reals: Reals, num: nat): VipRealMeta {
    if num in reals then reals[num] else VipRealMeta(0, 0)
  }

  function ApplyOne(reals: Reals, u: UpdateReal): Reals {
    var e := u.updatedReal;
    match u.action
    case Del => reals - {e.num}
    case Add =>
      if MetaOf(reals, e.num).weight != e.weight then reals[e.num := VipRealMeta(e.weight, e.hash)]
      else reals[e.num := MetaOf(reals, e.num)]
  }

  predicate Changes(reals: Reals, u: UpdateReal) {
    u.action.Del? || MetaOf(reals, u.updatedReal.num).weight != u.updatedReal.weight
  }

  function Apply(reals: Reals, us: seq<UpdateReal>): Reals {
    if us == [] then reals else ApplyOne(Apply(reals, us[..|us| - 1]), us[|us| - 1])
  }

  predicate AnyChange(reals: Reals, us: seq<UpdateReal>) {
    us != [] && (AnyChange(reals, us[..|us| - 1]) || Changes(Apply(reals, us[..|us| - 1]), us[|us| - 1]))
  }

  predicate IsActive(reals: Reals, n: nat) {
    n in reals && reals[n].weight != 0
  }

  predicate HasActive(reals: Reals) {
    exists n :: n in reals && IsActive(reals, n)
  }

  function EndpointOf(reals: Reals, n: nat): Endpoint
    requires n in reals
  {
    Endpoint(n, reals[n].weight, reals[n].hash)
  }

  ghost predicate SortedByHash(es: seq<Endpoint>) {
    forall i, j :: 0 <= i < j < |es| ==> es[i].hash <= es[j].hash
  }

  ghost predicate DistinctNums(es: seq<Endpoint>) {
    forall i, j :: 0 <= i < j < |es| ==> es[i].num != es[j].num
  }

  /** `es` holds every real of nonzero weight once, in order of hash. Ties may come in any order. */
  ghost predicate Lists(es: seq<Endpoint>, reals: Reals) {
    && (forall i :: 0 <= i < |es| ==> IsActive(reals, es[i].num) && es[i] == EndpointOf(reals, es[i].num))
    && (forall n :: IsActive(reals, n) ==> EndpointOf(reals, n) in es)
    && DistinctNums(es)
    && SortedByHash(es)
  }

  /** The ring of the listed reals, whose construction came to an end. */
  ghost predicate RingOf(ring: seq<int>, reals: Reals, size: nat, murmur: Murmur)
    requires size >= 2
  {
    exists es :: Lists(es, reals) && Ends(es, size, murmur) && ring == MaglevRing(es, size, murmur)
  }

  /** What a VIP keeps: with an active real, its ring is the ring of its active reals. */
  ghost predicate InSync(v: VipState, size: nat, murmur: Murmur)
    requires size >= 2
  {
    |v.ring| == size && (HasActive(v.reals) ==> RingOf(v.ring, v.reals, size, murmur))
  }

  /** The construction ends, in whatever order ties are sorted. */
  ghost predicate RingEnds(reals: Reals, size: nat, murmur: Murmur)
    requires size >= 2
  {
    forall es :: Lists(es, reals) ==> Ends(es, size, murmur)
  }

  /** The batch returns: no ring has to be built, or building it ends. */
  ghost predicate BatchReturns(reals: Reals, us: seq<UpdateReal>, size: nat, murmur: Murmur)
    requires size >= 2
  {
    AnyChange(reals, us) ==> RingEnds(Apply(reals, us), size, murmur)
  }

  /** The active reals have safe skips. */
  ghost predicate SafeReals(reals: Reals, size: nat, murmur: Murmur)
    requires size >= 2
  {
    forall n: nat :: IsActive(reals, n) ==> SafeSkip(Permutation(reals[n].hash, size, murmur), size)
  }

  /** Safe skips suffice for that. */
  lemma SafeRealsEnd(reals: Reals, size: nat, murmur: Murmur)
    requires size >= 2 && SafeReals(reals, size, murmur)
    ensures RingEnds(reals, size, murmur)
  {
    hide SafeSkip, Permutation, Ends;
    forall es | Lists(es, reals) ensures Ends(es, size, murmur) {
      SafeEndpointsEnd(es, size, murmur);
    }
  }

  /** One batch: the ring is rebuilt when something changed and an active real is left. */
  ghost predicate Batch(v: VipState, us: seq<UpdateReal>, v': VipState, size: nat, murmur: Murmur)
    requires size >= 2
  {
    && v'.num == v.num && v'.flags == v.flags
    && v'.reals == Apply(v.reals, us)
    && if AnyChange(v.reals, us) && HasActive(v'.reals) then RingOf(v'.ring, v'.reals, size, murmur)
       else v'.ring == v.ring
  }

  lemma {:induction false} NoChangeKeepsActive(reals: Reals, us: seq<UpdateReal>, n: nat)
    requires !AnyChange(reals, us)
    ensures IsActive(Apply(reals, us), n) <==> IsActive(reals, n)
    ensures IsActive(reals, n) ==> Apply(reals, us)[n] == reals[n]
  {
    if us != [] {
      NoChangeKeepsActive(reals, us[..|us| - 1], n);
    }
  }

  lemma ListsSameActive(es: seq<Endpoint>, reals: Reals, reals': Reals)
    requires Lists(es, reals)
    requires forall n :: IsActive(reals', n) <==> IsActive(reals, n)
    requires forall n :: IsActive(reals, n) && IsActive(reals', n) ==> reals'[n] == reals[n]
    ensures Lists(es, reals')
  {
  }

  /** Every batch keeps the ring in step with the reals. */
  lemma BatchKeepsInSync(v: VipState, us: seq<UpdateReal>, v': VipState, size: nat, murmur: Murmur)
    requires size >= 2 && InSync(v, size, murmur) && Batch(v, us, v', size, murmur)
    ensures InSync(v', size, murmur)
  {
    if !AnyChange(v.reals, us) && HasActive(v'.reals) {
      forall n
        ensures IsActive(v'.reals, n) <==> IsActive(v.reals, n)
        ensures IsActive(v.reals, n) ==> v'.reals[n] == v.reals[n]
      {
        if n >= 0 { NoChangeKeepsActive(v.reals, us, n); }
      }
      var n :| n in v'.reals && IsActive(v'.reals, n);
      assert n in v.reals && IsActive(v.reals, n);
      var es :| Lists(es, v.reals) && Ends(es, size, murmur) && v.ring == MaglevRing(es, size, murmur);
      ListsSameActive(es, v.reals, v'.reals);
    }
  }

  /** Every cell of an in-sync ring names a real of nonzero weight of this VIP. */
  lemma RingNamesActive(v: VipState, size: nat, murmur: Murmur, pos: nat)
    requires size >= 2 && InSync(v, size, murmur) && HasActive(v.reals) && pos < size
    ensures v.ring[pos] >= 0 && IsActive(v.reals, v.ring[pos])
  {
    var es: seq<Endpoint> :| Lists(es, v.reals) && Ends(es, size, murmur) && v.ring == MaglevRing(es, size, murmur);
    var n :| n in v.reals && IsActive(v.reals, n);
    assert EndpointOf(v.reals, n) in es;
    hide Ends, MaglevRing;
    var o := RingNumber(es, size, murmur, pos);
    assert IsActive(v.reals, es[o].num);
  }

  /** The active real of least hash has the slot that its hash is hashed to with 42 and 0. */
  lemma LeastHashOwns(ring: seq<int>, reals: Reals, size: nat, murmur: Murmur, n: nat)
    requires 2 <= size < U32 && RingOf(ring, reals, size, murmur) && IsActive(reals, n)
    requires forall m :: IsActive(reals, m) && m != n ==> reals[n].hash < reals[m].hash
    ensures |ring| == size && ring[murmur(reals[n].hash, 42, 0) % size] == n
  {
    var es: seq<Endpoint> :| Lists(es, reals) && Ends(es, size, murmur) && ring == MaglevRing(es, size, murmur);
    var j :| 0 <= j < |es| && es[j] == EndpointOf(reals, n);
    assert IsActive(reals, es[0].num) && es[0] == EndpointOf(reals, es[0].num);
    assert j == 0;
    hide MaglevRing, Ends;
    FirstSlot(es, size, murmur, 0);
  }

  // ---------------------------------------------------------------------
  // Rings do not depend on history or numbering
  // ---------------------------------------------------------------------

  /** What a real means outside this instance: its name, weight and hash. */
  datatype Tag<A> = Tag(name: A, weight: nat, hash: nat)

  ghost predicate Names<A>(names: map<nat, A>, reals: Reals) {
    forall n :: IsActive(reals, n) ==> n in names
  }

  ghost function ActiveTags<A>(names: map<nat, A>, reals: Reals): set<Tag<A>>
    requires Names(names, reals)
  {
    set n | n in reals && IsActive(reals, n) :: Tag(names[n], reals[n].weight, reals[n].hash)
  }

  ghost predicate DistinctHashes(reals: Reals) {
    forall m, n :: IsActive(reals, m) && IsActive(reals, n) && m != n ==> reals[m].hash != reals[n].hash
  }

  ghost function Tags<A>(names: map<nat, A>, es: seq<Endpoint>): (ts: seq<Tag<A>>)
    requires forall i :: 0 <= i < |es| ==> es[i].num in names
    ensures |ts| == |es|
  {
    seq(|es|, i requires 0 <= i < |es| => Tag(names[es[i].num], es[i].weight, es[i].hash))
  }

  ghost predicate StrictlySorted<A>(ts: seq<Tag<A>>) {
    forall i, j :: 0 <= i < j < |ts| ==> ts[i].hash < ts[j].hash
  }

  lemma EmptyTogether<A>(s: seq<Tag<A>>, t: seq<Tag<A>>)
    requires forall x :: x in s ==> x in t
    ensures t == [] ==> s == []
  {
    assert s != [] ==> s[0] in t;
  }

  /** Two strictly sorted lists with the same elements are the same list. */
  lemma {:induction false} StrictlySortedUnique<A(!new)>(s: seq<Tag<A>>, t: seq<Tag<A>>)
    requires StrictlySorted(s) && StrictlySorted(t)
    requires forall x :: x in s <==> x in t
    ensures s == t
  {
    if s == [] || t == [] {
      EmptyTogether(s, t);
      EmptyTogether(t, s);
    } else {
      var m, n := |s| - 1, |t| - 1;
      assert s[m] in t && t[n] in s;
      assert s[m] == t[n];
      var s', t' := s[..m], t[..n];
      forall x ensures x in s' <==> x in t' {
        assert x in s' <==> x in s && x != s[m];
        assert x in t' <==> x in t && x != t[n];
      }
      StrictlySortedUnique(s', t');
      assert s == s' + [s[m]] && t == t' + [t[n]];
    }
  }

  lemma TagsOfList<A(!new)>(names: map<nat, A>, reals: Reals, es: seq<Endpoint>)
    requires Names(names, reals) && Lists(es, reals) && DistinctHashes(reals)
    ensures StrictlySorted(Tags(names, es))
    ensures forall x :: x in Tags(names, es) <==> x in ActiveTags(names, reals)
  {
    var ts := Tags(names, es);
    forall x | x in ts ensures x in ActiveTags(names, reals) {
      var i :| 0 <= i < |ts| && ts[i] == x;
      assert IsActive(reals, es[i].num);
    }
    forall x | x in ActiveTags(names, reals) ensures x in ts {
      var n :| n in reals && IsActive(reals, n) && x == Tag(names[n], reals[n].weight, reals[n].hash);
      var i :| 0 <= i < |es| && es[i] == EndpointOf(reals, n);
      assert ts[i] == x;
    }
  }

  /**
   Two VIPs with the same active names, weights and hashes name the same real at every ring
   position, whatever the order in which the reals came and whatever their numbers are.
   */
  lemma RingsAgree<A(!new)>(v: VipState, vNames: map<nat, A>, w: VipState, wNames: map<nat, A>,
                            size: nat, murmur: Murmur, pos: nat)
    requires size >= 2 && pos < size
    requires InSync(v, size, murmur) && InSync(w, size, murmur)
    requires HasActive(v.reals) && HasActive(w.reals)
    requires DistinctHashes(v.reals) && DistinctHashes(w.reals)
    requires Names(vNames, v.reals) && Names(wNames, w.reals)
    requires ActiveTags(vNames, v.reals) == ActiveTags(wNames, w.reals)
    ensures 0 <= v.ring[pos] && v.ring[pos] in vNames && 0 <= w.ring[pos] && w.ring[pos] in wNames
    ensures vNames[v.ring[pos] as nat] == wNames[w.ring[pos] as nat]
  {
    hide Ends, MaglevRing, Lists, HasActive, DistinctHashes, ActiveTags, Tags;
    RingNamesActive(v, size, murmur, pos);
    RingNamesActive(w, size, murmur, pos);
    var es: seq<Endpoint> :| Lists(es, v.reals) && Ends(es, size, murmur) && v.ring == MaglevRing(es, size, murmur);
    var fs: seq<Endpoint> :| Lists(fs, w.reals) && Ends(fs, size, murmur) && w.ring == MaglevRing(fs, size, murmur);
    ListedNames(vNames, v.reals, es);
    ListedNames(wNames, w.reals, fs);
    TagsOfList(vNames, v.reals, es);
    TagsOfList(wNames, w.reals, fs);
    hide Names;
    StrictlySortedUnique(Tags(vNames, es), Tags(wNames, fs));
    SamePosition(es, vNames, fs, wNames, size, murmur, pos, v.ring, w.ring);
  }

  lemma ListedNames<A>(names: map<nat, A>, reals: Reals, es: seq<Endpoint>)
    requires Names(names, reals) && Lists(es, reals)
    ensures forall i :: 0 <= i < |es| ==> es[i].num in names
  {
  }

  /** Lists with the same tags put the same name at every position that holds a number of theirs. */
  lemma SamePosition<A(!new)>(es: seq<Endpoint>, vNames: map<nat, A>, fs: seq<Endpoint>, wNames: map<nat, A>,
                              size: nat, murmur: Murmur, pos: nat, vRing: seq<int>, wRing: seq<int>)
    requires size >= 2 && pos < size
    requires forall i :: 0 <= i < |es| ==> es[i].num in vNames
    requires forall i :: 0 <= i < |fs| ==> fs[i].num in wNames
    requires Tags(vNames, es) == Tags(wNames, fs)
    requires vRing == MaglevRing(es, size, murmur) && wRing == MaglevRing(fs, size, murmur)
    requires vRing[pos] >= 0 && wRing[pos] >= 0 && vRing[pos] in vNames && wRing[pos] in wNames
    ensures vNames[vRing[pos] as nat] == wNames[wRing[pos] as nat]
  {
    SameTags(vNames, es, wNames, fs);
    OwnersIgnoreNumbers(es, fs, size, murmur);
    var o := OwnerRing(es, size, murmur)[pos];
    hide OwnerRing;
    assert vRing[pos] == Label(es, o) && wRing[pos] == Label(fs, o);
    assert Tags(vNames, es)[o] == Tags(wNames, fs)[o];
  }

  lemma SameTags<A(!new)>(vNames: map<nat, A>, es: seq<Endpoint>, wNames: map<nat, A>, fs: seq<Endpoint>)
    requires forall i :: 0 <= i < |es| ==> es[i].num in vNames
    requires forall i :: 0 <= i < |fs| ==> fs[i].num in wNames
    requires Tags(vNames, es) == Tags(wNames, fs)
    ensures |es| == |fs|
    ensures forall i :: 0 <= i < |es| ==> es[i].weight == fs[i].weight && es[i].hash == fs[i].hash
  {
    forall i | 0 <= i < |es| ensures es[i].weight == fs[i].weight && es[i].hash == fs[i].hash {
      assert Tags(vNames, es)[i] == Tags(wNames, fs)[i];
    }
  }

  // ---------------------------------------------------------------------
  // Deltas
  // ---------------------------------------------------------------------

  /** The positions below `k` where two rings differ, with the new value. */
  function Diff(before: seq<int>, after: seq<int>, k: nat): seq<RealPos>
    requires |before| == |after| && k <= |after|
  {
    if k == 0 then [] else
      var d := Diff(before, after, k - 1);
      if before[k - 1] != after[k - 1] then d + [RealPos(after[k - 1], k - 1)] else d
  }

  /** The receiving side: write the listed cells. */
  function Patch(ring: seq<int>, delta: seq<RealPos>): (r: seq<int>)
    ensures |r| == |ring|
  {
    if delta == [] then ring else
      var r := Patch(ring, delta[..|delta| - 1]);
      var d := delta[|delta| - 1];
      if d.pos < |r| then r[d.pos := d.realNum] else r
  }

  lemma PatchAppend(ring: seq<int>, delta: seq<RealPos>, d: RealPos)
    requires d.pos < |ring|
    ensures Patch(ring, delta + [d]) == Patch(ring, delta)[d.pos := d.realNum]
  {
  }

  /** Applying the delta of the first `k` positions makes exactly those positions new. */
  lemma {:induction false} PatchDiff(before: seq<int>, after: seq<int>, k: nat, p: nat)
    requires |before| == |after| && k <= |after| && p < |after|
    ensures Patch(before, Diff(before, after, k))[p] == if p < k then after[p] else before[p]
  {
    if k > 0 {
      PatchDiff(before, after, k - 1, p);
      var d := Diff(before, after, k - 1);
      hide Patch;
      if before[k - 1] != after[k - 1] {
        PatchAppend(before, d, RealPos(after[k - 1], k - 1));
      }
    }
  }

  lemma DeltaTurnsOldIntoNew(before: seq<int>, after: seq<int>)
    requires |before| == |after|
    ensures Patch(before, Diff(before, after, |after|)) == after
  {
    forall p | 0 <= p < |after| ensures Patch(before, Diff(before, after, |after|))[p] == after[p] {
      PatchDiff(before, after, |after|, p);
    }
  }

  /** Positions below `k` in increasing order, so each at most once. */
  ghost predicate Ascending(d: seq<RealPos>, k: nat) {
    (forall i :: 0 <= i < |d| ==> d[i].pos < k) && forall i, j :: 0 <= i < j < |d| ==> d[i].pos < d[j].pos
  }

  lemma AscendingNext(d: seq<RealPos>, k: nat, x: int)
    requires Ascending(d, k)
    ensures Ascending(d, k + 1) && Ascending(d + [RealPos(x, k)], k + 1)
  {
  }

  /** The delta lists the differing positions, each once, and nothing else. */
  lemma {:induction false} DiffIsMinimal(before: seq<int>, after: seq<int>, k: nat)
    requires |before| == |after| && k <= |after|
    ensures Ascending(Diff(before, after, k), k)
    ensures forall p :: 0 <= p < k && before[p] != after[p] ==> RealPos(after[p], p) in Diff(before, after, k)
    ensures forall d :: d in Diff(before, after, k) ==> d.pos < k && d.realNum == after[d.pos] != before[d.pos]
  {
    if k > 0 {
      DiffIsMinimal(before, after, k - 1);
      var d, last := Diff(before, after, k - 1), RealPos(after[k - 1], k - 1);
      var e := Diff(before, after, k);
      assert e == if before[k - 1] != after[k - 1] then d + [last] else d;
      hide Ascending, Diff;
      AscendingNext(d, k - 1, after[k - 1]);
      assert forall x :: x in e <==> x in d || (x == last && before[k - 1] != after[k - 1]);
      forall p | 0 <= p < k && before[p] != after[p] ensures RealPos(after[p], p) in e {
        if p == k - 1 { assert last in e; }
      }
    }
  }

  // ---------------------------------------------------------------------
  // The class
  // ---------------------------------------------------------------------

  /** `r` is `es` (distinct numbers) in order of hash. */
  ghost predicate SortOf(r: seq<Endpoint>, es: seq<Endpoint>) {
    SortedByHash(r) && DistinctNums(r) && forall e :: e in r <==> e in es
  }

  method SortByHash(es: seq<Endpoint>) returns (r: seq<Endpoint>)
    requires DistinctNums(es)
    ensures SortOf(r, es)
  {
    r := [];
    for i := 0 to |es|
      invariant SortOf(r, es[..i])
    {
      forall k | 0 <= k < |r| ensures r[k].num != es[i].num {
        assert r[k] in es[..i];
      }
      InsertKeepsOrder(r, es[i]);
      r := InsertByHash(r, es[i]);
      assert es[..i + 1] == es[..i] + [es[i]];
    }
    assert es[..|es|] == es;
  }

  function InsertByHash(r: seq<Endpoint>, e: Endpoint): (r': seq<Endpoint>)
    ensures forall x :: x in r' <==> x in r || x == e
  {
    if r == [] || r[|r| - 1].hash <= e.hash then r + [e] else
      assert r == r[..|r| - 1] + [r[|r| - 1]];
      InsertByHash(r[..|r| - 1], e) + [r[|r| - 1]]
  }

  lemma AppendKeepsOrder(r: seq<Endpoint>, e: Endpoint)
    requires SortedByHash(r) && DistinctNums(r) && forall x :: x in r ==> x.hash <= e.hash && x.num != e.num
    ensures SortedByHash(r + [e]) && DistinctNums(r + [e])
  {
  }

  lemma {:induction false} InsertKeepsOrder(r: seq<Endpoint>, e: Endpoint)
    requires SortedByHash(r) && DistinctNums(r) && forall k :: 0 <= k < |r| ==> r[k].num != e.num
    ensures SortedByHash(InsertByHash(r, e)) && DistinctNums(InsertByHash(r, e))
  {
    if r != [] && r[|r| - 1].hash > e.hash {
      var front := r[..|r| - 1];
      InsertKeepsOrder(front, e);
      var rest := InsertByHash(front, e);
      forall x | x in rest ensures x.hash <= r[|r| - 1].hash && x.num != r[|r| - 1].num {
        if x != e {
          assert x in front;
        }
      }
      AppendKeepsOrder(rest, r[|r| - 1]);
    }
  }

  class Vip {
    const vipNum: nat
    var vipFlags: bv32
    const chRingSize: nat
    const murmur: Murmur
    var reals: Reals
    var chRing: seq<int>

    ghost predicate Valid()
      reads this
    {
      |chRing| == chRingSize && chRingSize >= 2 && chRingSize < U32
    }

    ghost function State(): VipState
      reads this
    {
      VipState(vipNum, vipFlags, reals, chRing)
    }

    constructor (vipNum: nat, vipFlags: bv32, ringSize: nat, murmur: Murmur)
      requires ringSize >= 2 && ringSize < U32
      ensures Valid() && this.murmur == murmur && chRingSize == ringSize
      ensures State() == VipState(vipNum, vipFlags, map[], EmptyRing(ringSize))
    {
      this.vipNum, this.vipFlags, this.chRingSize, this.murmur := vipNum, vipFlags, ringSize, murmur;
      reals, chRing := map[], EmptyRing(ringSize);
    }

    method SetVipFlags(flags: bv32)
      modifies this`vipFlags
      ensures vipFlags == NewFlags(old(vipFlags), flags, true)
    {
      vipFlags := vipFlags | flags;
    }

    method UnsetVipFlags(flags: bv32)
      modifies this`vipFlags
      ensures vipFlags == NewFlags(old(vipFlags), flags, false)
    {
      vipFlags := vipFlags & !flags;
    }

    /** The numbers of all the reals, in whatever order the hash map yields them. */
    method GetReals() returns (nums: seq<nat>)
      ensures Elements(nums) == reals.Keys && Distinct(nums)
    {
      nums := [];
      var todo := reals.Keys;
      while todo != {}
        invariant todo <= reals.Keys && Elements(nums) == reals.Keys - todo && Distinct(nums)
        decreases todo
      {
        var n :| n in todo;
        nums, todo := nums + [n], todo - {n};
      }
    }

    /** The reals of nonzero weight, in whatever order the hash map yields them. */
    method CollectActive() returns (es: seq<Endpoint>)
      ensures DistinctNums(es)
      ensures forall e :: e in es <==> IsActive(reals, e.num) && e == EndpointOf(reals, e.num)
    {
      es := [];
      var todo := reals.Keys;
      while todo != {}
        invariant todo <= reals.Keys && DistinctNums(es)
        invariant forall e :: e in es <==>
          e.num !in todo && IsActive(reals, e.num) && e == EndpointOf(reals, e.num)
        decreases todo
      {
        var n :| n in todo;
        if reals[n].weight != 0 {
          es := es + [Endpoint(n, reals[n].weight, reals[n].hash)];
        }
        todo := todo - {n};
      }
    }

    method GetEndpoints(ureals: seq<UpdateReal>) returns (endpoints: seq<Endpoint>)
      modifies this`reals
      ensures reals == Apply(old(reals), ureals)
      ensures if AnyChange(old(reals), ureals) then Lists(endpoints, reals) else endpoints == []
    {
      endpoints := [];
      var realsChanged := false;
      for i := 0 to |ureals|
        invariant reals == Apply(old(reals), ureals[..i])
        invariant realsChanged == AnyChange(old(reals), ureals[..i])
      {
        var u := ureals[i];
        var num := u.updatedReal.num;
        if u.action == Del {
          reals := reals - {num};
          realsChanged := true;
        } else {
          if num !in reals {
            reals := reals[num := VipRealMeta(0, 0)];
          }
          var curWeight := reals[num].weight;
          if curWeight != u.updatedReal.weight {
            reals := reals[num := VipRealMeta(u.updatedReal.weight, u.updatedReal.hash)];
            realsChanged := true;
          }
        }
        assert ureals[..i + 1][..i] == ureals[..i];
      }
      assert ureals[..|ureals|] == ureals;
      if realsChanged {
        var active := CollectActive();
        endpoints := SortByHash(active);
        assert forall i :: 0 <= i < |endpoints| ==> endpoints[i] in active;
      }
    }

    /** Applies a batch and returns the ring cells that changed. */
    method BatchRealsUpdate(ureals: seq<UpdateReal>) returns (delta: seq<RealPos>)
      requires Valid() && BatchReturns(reals, ureals, chRingSize, murmur)
      requires forall n: nat :: IsActive(Apply(reals, ureals), n) ==> n < I32
      modifies this`reals, this`chRing
      ensures Valid() && Batch(old(State()), ureals, State(), chRingSize, murmur)
      ensures delta == Diff(old(chRing), chRing, chRingSize)
    {
      delta := [];
      var endpoints := GetEndpoints(ureals);
      NoActiveNoEndpoints(endpoints, reals, AnyChange(old(reals), ureals));
      DiffSame(chRing, chRingSize);
      if |endpoints| != 0 {
        var newRing := GenerateMaglevHash(endpoints, chRingSize, murmur);
        delta := InstallRing(newRing);
      }
    }

    /** Overwrites the cells that differ and reports them. */
    method InstallRing(newRing: seq<int>) returns (delta: seq<RealPos>)
      requires Valid() && |newRing| == chRingSize
      modifies this`chRing
      ensures chRing == newRing && delta == Diff(old(chRing), newRing, chRingSize)
    {
      delta := [];
      for i := 0 to chRingSize
        invariant |chRing| == chRingSize
        invariant forall k :: 0 <= k < chRingSize ==> chRing[k] == if k < i then newRing[k] else old(chRing)[k]
        invariant delta == Diff(old(chRing), newRing, i)
      {
        if newRing[i] != chRing[i] {
          delta := delta + [RealPos(newRing[i], i)];
          chRing := chRing[i := newRing[i]];
        }
      }
    }
  }

  lemma NoActiveNoEndpoints(es: seq<Endpoint>, reals: Reals, changed: bool)
    requires if changed then Lists(es, reals) else es == []
    ensures es != [] <==> changed && HasActive(reals)
  {
    if es != [] {
      assert es[0].num in reals && IsActive(reals, es[0].num);
    }
    assert forall n :: changed && n in reals && IsActive(reals, n) ==> EndpointOf(reals, n) in es;
  }

  lemma {:induction false} DiffSame(ring: seq<int>, k: nat)
    requires k <= |ring|
    ensures Diff(ring, ring, k) == []
  {
    if k > 0 {
      DiffSame(ring, k - 1);
    }
  }
}
