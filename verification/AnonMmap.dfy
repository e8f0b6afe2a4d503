/** The registry of anonymous memory areas: reserving, committing and releasing address ranges. */
module AnonMmap {
  import opened Ranges

  /** One reserved area. The ranges in ds are backed by memory and stay attached until the area
      is destroyed; the ranges in mapped are the parts of them that are still in use. */
  class VmArea {
    const base: nat
    const size: nat
    var ds: seq<Range>
    var mapped: seq<Range>

    ghost predicate Valid()
      reads this
    {
      && Separate(ds) && Separate(mapped) && Backed(mapped, ds)
      && (forall i :: 0 <= i < |ds| ==> ds[i].Within(Range(base, size)))
    }

    constructor (base: nat, size: nat)
      ensures this.base == base && this.size == size && ds == [] && mapped == [] && Valid()
    {
      this.base, this.size := base, size;
      ds, mapped := [], [];
    }

    predicate Inside(r: Range) {
      r.base >= base && r.base + r.size <= base + size
    }

    /** Whether committing the range must fail: it lies outside, or meets memory that is attached. */
    predicate Refuses(r: Range)
      reads this
    {
      !Inside(r) || exists i :: 0 <= i < |ds| && !Disjoint(ds[i], r)
    }

    /** Backs a range with memory. Attaching over memory that is still attached, mapped or not,
        is a conflict, and then nothing changes. */
    method Commit(r: Range) returns (ok: bool)
      requires Valid() && r.size > 0
      modifies this
      ensures Valid()
      ensures ok <==> !old(Refuses(r))
      ensures ok ==> ds == old(ds) + [r] && mapped == old(mapped) + [r]
      ensures !ok ==> ds == old(ds) && mapped == old(mapped)
    {
      if !Inside(r) {
        return false;
      }
      if exists i :: 0 <= i < |ds| && !Disjoint(ds[i], r) {
        return false;
      }
      AppendSeparate(ds, r);
      AppendBacked(mapped, ds, r);
      ds := ds + [r];
      mapped := mapped + [r];
      return true;
    }

    /** The step of the walk at the record i: it shrinks or disappears in place. If q splits it, it
        keeps its left part, and the caller has to add the right part later. */
    method EditRecord(i: nat, q: Range) returns (crosses: bool, crossing: Range, usedVr: bool, waits: bool)
      requires i < |mapped|
      modifies this`mapped
      ensures (crosses, crossing) == Crossing(old(mapped)[i], q)
      ensures mapped == old(mapped)[..i] + Trim(old(mapped)[i], q) + old(mapped)[i + 1..]
      ensures usedVr <==> |Trim(old(mapped)[i], q)| == 1
      ensures waits <==> Rest(old(mapped)[i], q) != []
    {
      var vr := mapped[i];
      TrimCases(vr, q);
      var c := Crossing(vr, q);
      crosses, crossing := c.0, c.1;
      usedVr, waits := !crosses, false;
      if crosses {
        if vr.base != crossing.base {
          mapped := mapped[i := vr.(size := crossing.base - vr.base)];
          usedVr := true;
        }
        if crossing.base + crossing.size != vr.base + vr.size {
          if usedVr {
            waits := true;
            return;
          }
          mapped := mapped[i := Range(crossing.base + crossing.size,
                                      vr.base + vr.size - crossing.base - crossing.size)];
          usedVr := true;
        }
        if !usedVr {
          mapped := mapped[..i] + mapped[i + 1..];
        }
      }
    }

    /** Takes q out of the mapped ranges. The right part of a split record is added after the walk,
        from the variables of the last record that crossed q. */
    method ReleasePart(q: Range) returns (used: bool)
      requires Valid()
      modifies this`mapped
      ensures Valid()
      ensures mapped == Trims(old(mapped), q) + Rests(old(mapped), q)
      ensures used <==> |Trims(old(mapped), q)| > |Rests(old(mapped), q)|
      ensures ds == old(ds)
    {
      hide Separate, Backed, Crossing, Trims, Rests, Trim, Rest, RightOf, Walked;
      used := false;
      var needNewChunk, newRange, oldRange := false, Range(0, 0), Range(0, 0);
      ghost var was, k := mapped, 0;
      WalkBegins(was, q);
      var i := 0;
      while i < |mapped|
        invariant Walked(was, q, k, i, mapped, used, Pending(needNewChunk, newRange, oldRange))
        decreases |was| - k
      {
        var vr := mapped[i];
        ghost var before, late := mapped, Pending(needNewChunk, newRange, oldRange);
        WalkedAt(was, q, k, i, mapped, used, late);
        var crosses, crossing, usedVr, waits := EditRecord(i, q);
        WalkStep(was, q, k, i, before, used, late, mapped);
        if crosses {
          newRange, oldRange := crossing, vr;
        }
        if waits {
          needNewChunk := true;
        } else if usedVr {
          used := true;
        }
        if usedVr {
          i := i + 1;
        }
        k := k + 1;
      }
      WalkEnds(was, q, k, i, mapped, used, Pending(needNewChunk, newRange, oldRange));
      if needNewChunk {
        mapped := mapped + [RightOf(oldRange, newRange)];
      }
      ReleaseExact(was, q, ds);
    }
  }

  /** Whether a right part waits to be added, and the last record that crossed with its intersection. */
  datatype Pending = Pending(waits: bool, crossing: Range, record: Range)

  /** After k records: the list up to i is done, and the variables tell what is still to be added. */
  ghost predicate Walked(was: seq<Range>, q: Range, k: nat, i: nat, mapped: seq<Range>, used: bool, late: Pending) {
    k <= |was|
    && (var trims, rests := Trims(was[..k], q), Rests(was[..k], q);
        && i == |trims| && mapped == trims + was[k..] && |trims| >= |rests| && (used <==> |trims| > |rests|)
        && if late.waits then late.crossing.Within(late.record) && rests == [RightOf(late.record, late.crossing)]
           else rests == [])
  }

  lemma WalkBegins(was: seq<Range>, q: Range)
    ensures Walked(was, q, 0, 0, was, false, Pending(false, Range(0, 0), Range(0, 0)))
  {
    NothingYet(was, q);
  }

  lemma WalkedAt(was: seq<Range>, q: Range, k: nat, i: nat, mapped: seq<Range>, used: bool, late: Pending)
    requires Walked(was, q, k, i, mapped, used, late) && i < |mapped|
    ensures k < |was| && mapped[i] == was[k] && mapped[..i] == Trims(was[..k], q) && mapped[i + 1..] == was[k + 1..]
  {
    hide Trims, Rests, RightOf;
    CutOut(Trims(was[..k], q), was, k, mapped);
  }

  /** One record more. */
  lemma WalkStep(was: seq<Range>, q: Range, k: nat, i: nat, mapped: seq<Range>, used: bool, late: Pending,
                 mapped': seq<Range>)
    requires Separate(was) && Walked(was, q, k, i, mapped, used, late) && i < |mapped|
    requires mapped' == mapped[..i] + Trim(mapped[i], q) + mapped[i + 1..]
    ensures var (crosses, crossing) := Crossing(mapped[i], q);
            var usedVr, waits := |Trim(mapped[i], q)| == 1, Rest(mapped[i], q) != [];
            k < |was| && Walked(was, q, k + 1, if usedVr then i + 1 else i, mapped', used || (usedVr && !waits),
              Pending(late.waits || waits, if crosses then crossing else late.crossing,
                if crosses then mapped[i] else late.record))
  {
    hide Separate, Crossing, Trims, Rests, Trim, Rest, RightOf;
    WalkedAt(was, q, k, i, mapped, used, late);
    PrefixStep(was, k, q);
    TrimSizes(was[k], q);
    if Crossing(was[k], q).0 {
      NoSecondSplit(was, k, q);
    }
  }

  lemma WalkEnds(was: seq<Range>, q: Range, k: nat, i: nat, mapped: seq<Range>, used: bool, late: Pending)
    requires Walked(was, q, k, i, mapped, used, late) && i >= |mapped|
    ensures used <==> |Trims(was, q)| > |Rests(was, q)|
    ensures late.waits ==> late.crossing.Within(late.record)
    ensures Trims(was, q) + Rests(was, q)
         == if late.waits then mapped + [RightOf(late.record, late.crossing)] else mapped
  {
    hide Trims, Rests, RightOf;
    assert was[..k] == was;
  }

  /** A record leaves at most one piece in its place, and a second one only if it leaves the first. */
  lemma TrimSizes(r: Range, q: Range)
    ensures |Trim(r, q)| <= 1 && (Rest(r, q) != [] ==> |Trim(r, q)| == 1)
    ensures var (crosses, c) := Crossing(r, q);
            && (!crosses ==> Rest(r, q) == [] && |Trim(r, q)| == 1)
            && (Rest(r, q) != [] ==> c.Within(r) && Rest(r, q) == [RightOf(r, c)])
  {
  }

  /** The record under the cursor. */
  lemma CutOut(done: seq<Range>, was: seq<Range>, k: nat, rs: seq<Range>)
    requires k <= |was| && rs == done + was[k..] && |done| < |rs|
    ensures k < |was| && rs[|done|] == was[k] && rs[..|done|] == done && rs[|done| + 1..] == was[k + 1..]
  {
  }

  lemma NothingYet(rs: seq<Range>, q: Range)
    ensures Trims(rs[..0], q) == [] && Rests(rs[..0], q) == []
  {
  }

  lemma TrimCases(r: Range, q: Range)
    ensures var (crosses, c) := Crossing(r, q);
            && (crosses ==> r.base <= c.base && c.base + c.size <= r.base + r.size)
            && Trim(r, q) == (if !crosses then [r]
                              else if r.base != c.base then [r.(size := c.base - r.base)]
                              else if c.base + c.size != r.base + r.size
                                then [Range(c.base + c.size, r.base + r.size - c.base - c.size)]
                              else [])
            && Rest(r, q) == (if crosses && r.base != c.base && c.base + c.size != r.base + r.size
                              then [Range(c.base + c.size, r.base + r.size - c.base - c.size)] else [])
  {
  }

  lemma PrefixStep(rs: seq<Range>, k: nat, q: Range)
    requires k < |rs|
    ensures Trims(rs[..k + 1], q) == Trims(rs[..k], q) + Trim(rs[k], q)
    ensures Rests(rs[..k + 1], q) == Rests(rs[..k], q) + Rest(rs[k], q)
  {
    assert rs[..k + 1][..k] == rs[..k];
  }

  /** Once a record has been split no other record crosses the query, so that the remembered right
      part is not overwritten. */
  lemma NoSecondSplit(rs: seq<Range>, k: nat, q: Range)
    requires Separate(rs) && k < |rs| && Crossing(rs[k], q).0
    ensures Rests(rs[..k], q) == []
  {
    if Rests(rs[..k], q) != [] {
      var i := RestInside(rs[..k], q);
      OnlyOneCrosses(rs, q, i, k);
    }
  }

  lemma AppendSeparate(rs: seq<Range>, r: Range)
    requires Separate(rs) && r.size > 0 && forall i :: 0 <= i < |rs| ==> Disjoint(rs[i], r)
    ensures Separate(rs + [r])
  {
    SeparatePairs(rs);
    SeparatePairs(rs + [r]);
  }

  /** A range apart from the backing ranges is apart from what they back. */
  lemma AppendBacked(rs: seq<Range>, ds: seq<Range>, r: Range)
    requires Separate(rs) && Backed(rs, ds) && r.size > 0 && forall i :: 0 <= i < |ds| ==> Disjoint(ds[i], r)
    ensures Separate(rs + [r]) && Backed(rs + [r], ds + [r])
  {
    forall i | 0 <= i < |rs|
      ensures Disjoint(rs[i], r)
    {
      assert InSome(rs[i], ds);
      var j :| 0 <= j < |ds| && rs[i].Within(ds[j]);
    }
    AppendSeparate(rs, r);
    forall i | 0 <= i < |rs|
      ensures InSome(rs[i], ds + [r])
    {
      assert InSome(rs[i], ds);
      var j :| 0 <= j < |ds| && rs[i].Within(ds[j]);
      assert rs[i].Within((ds + [r])[j]);
    }
    assert r.Within((ds + [r])[|ds|]);
  }

  /** The reported use of an area is exact (it says whether anything is still mapped) if and only
      if the release did not split the only mapped range of the area. */
  lemma UsedExact(rs: seq<Range>, q: Range)
    requires Separate(rs)
    ensures var used := |Trims(rs, q)| > |Rests(rs, q)|;
            (used <==> Trims(rs, q) + Rests(rs, q) != []) <==> !(|rs| == 1 && Splits(rs[0], q))
  {
    SplitWaits(rs, q);
    if Rests(rs, q) != [] {
      var i := RestInside(rs, q);
      AllButOneKept(rs, q, i);
      SplitCount(rs, q);
    }
  }

  /** A range of three pages loses its middle one: the area is reported unused with two pages mapped. */
  lemma UsedIsWrong()
    ensures
      var rs, q := [Range(0, 3)], Range(1, 1);
      Trims(rs, q) + Rests(rs, q) == [Range(0, 1), Range(2, 1)] && !(|Trims(rs, q)| > |Rests(rs, q)|)
  {
    var rs, q := [Range(0, 3)], Range(1, 1);
    assert Trims(rs, q) == Trims([], q) + [Range(0, 1)] && Rests(rs, q) == Rests([], q) + [Range(2, 1)];
  }

  lemma SplitWaits(rs: seq<Range>, q: Range)
    ensures |rs| == 1 && Splits(rs[0], q) ==> Rests(rs, q) != []
  {
    if |rs| == 1 {
      assert Rests(rs, q) == Rests(rs[..0], q) + Rest(rs[0], q);
    }
  }

  /** Around a split nothing is lost: every record is still there, and one waits for its right part. */
  lemma AllButOneKept(rs: seq<Range>, q: Range, i: nat)
    requires Separate(rs) && i < |rs| && Splits(rs[i], q)
    ensures |Trims(rs, q)| == |rs|
  {
    forall j | 0 <= j < |rs|
      ensures |Trim(rs[j], q)| == 1
    {
      if j != i {
        OnlyOneCrosses(rs, q, i, j);
      }
    }
    OneEach(rs, q);
  }

  lemma {:induction false} OneEach(rs: seq<Range>, q: Range)
    requires forall j :: 0 <= j < |rs| ==> |Trim(rs[j], q)| == 1
    ensures |Trims(rs, q)| == |rs|
  {
    if rs != [] {
      OneEach(rs[..|rs| - 1], q);
    }
  }

  lemma SplitCount(rs: seq<Range>, q: Range)
    requires Separate(rs) && Rests(rs, q) != []
    ensures |Rests(rs, q)| == 1
  {
    RestsCount(rs, q);
  }

  // ---------- the registry ----------

  /** The registry of all areas. The main area serves reservations without a wanted address; its
      records stay when all of it is released. */
  class Registry {
    const main: VmArea
    var areas: seq<VmArea>

    ghost predicate Valid()
      reads this, areas
    {
      && main in areas
      && (forall i :: 0 <= i < |areas| ==> areas[i].Valid())
      && AllApart(Extents(areas))
    }

    /** The mapped ranges of all areas. */
    ghost function Maps(): (ms: seq<seq<Range>>)
      reads this, areas
      ensures |ms| == |areas| && forall i :: 0 <= i < |ms| ==> ms[i] == areas[i].mapped
    {
      seq(|areas|, i requires 0 <= i < |areas| reads this, areas => areas[i].mapped)
    }

    constructor (base: nat, size: nat)
      requires size > 0
      ensures Valid() && fresh(areas) && Maps() == [[]] && main.base == base && main.size == size
    {
      var a := new VmArea(base, size);
      main := a;
      areas := [a];
    }

    /** Reserves the range at a wanted address. It is refused if it meets another area or, as
        `taken` says, anything else in the address space. */
    method Reserve(r: Range, taken: bool) returns (ok: bool)
      requires Valid() && r.size > 0
      modifies this`areas
      ensures Valid() && fresh(set a | a in areas && a !in old(areas))
      ensures ok <==> !taken && forall i :: 0 <= i < |old(areas)| ==> Disjoint(Extents(old(areas))[i], r)
      ensures if ok then Extents(areas) == Extents(old(areas)) + [r] && Maps() == old(Maps()) + [[]]
              else areas == old(areas)
      ensures ok ==> areas[..|old(areas)|] == old(areas) && areas[|old(areas)|].ds == []
    {
      hide VmArea.Valid, Disjoint;
      if taken || exists i :: 0 <= i < |areas| && !Disjoint(Extent(areas[i]), r) {
        return false;
      }
      ghost var es := Extents(areas);
      var a := new VmArea(r.base, r.size);
      areas := areas + [a];
      assert Extents(areas) == es + [r];
      ApartAppended(es, r);
      ok := true;
    }

    /** Commits the range in the area that contains it, if this one does not refuse. */
    method Commit(r: Range) returns (ok: bool, ghost at: nat)
      requires Valid() && r.size > 0
      modifies areas
      ensures Valid()
      ensures ok <==> exists i :: 0 <= i < |areas| && !old(areas[i].Refuses(r))
      ensures ok ==> at < |areas| && areas[at].Inside(r) && areas[at].ds == old(areas[at].ds) + [r] &&
                     Maps() == old(Maps())[at := old(Maps())[at] + [r]]
      ensures ok ==> !old(areas[at].Refuses(r))
      ensures !ok ==> Maps() == old(Maps())
      ensures forall i :: 0 <= i < |areas| && !(ok && i == at) ==> areas[i].ds == old(areas[i].ds)
    {
      hide Separate, Backed, Disjoint;
      Distinct(areas);
      ok, at := false, 0;
      ghost var ms := Maps();
      for k := 0 to |areas|
        invariant Valid()
        invariant !ok ==> forall i :: 0 <= i < k ==> old(areas[i].Refuses(r))
        invariant ok ==> at < |areas| && areas[at].Inside(r) && !old(areas[at].Refuses(r)) &&
                         areas[at].ds == old(areas[at].ds) + [r] && areas[at].mapped == ms[at] + [r]
        invariant forall i :: 0 <= i < |areas| && !(ok && i == at) ==>
                    areas[i].ds == old(areas[i].ds) && areas[i].mapped == ms[i]
      {
        if !ok {
          ok := areas[k].Commit(r);
          at := k;
        }
      }
      assert Maps() == if ok then ms[at := ms[at] + [r]] else ms;
    }

    /** Releases the range in the area that contains it. Releasing a whole area destroys it, but the
        main area stays, with all its records. */
    method Release(q: Range) returns (ok: bool, areaUsed: bool, ghost at: nat)
      requires Valid() && q.size > 0
      modifies this`areas, areas
      ensures Valid() && forall a :: a in areas ==> a in old(areas)
      ensures ok <==> exists i :: 0 <= i < |old(areas)| && old(areas)[i].Inside(q)
      ensures ok ==> at < |old(areas)| && old(areas)[at].Inside(q)
      ensures !ok ==> areas == old(areas) && Maps() == old(Maps())
      ensures forall a :: a in old(areas) ==> a.ds == old(a.ds)
      ensures ok && q != Extent(old(areas)[at]) ==>
                var rs := old(Maps())[at];
                areas == old(areas) && Maps() == old(Maps())[at := Trims(rs, q) + Rests(rs, q)] &&
                areaUsed == (|Trims(rs, q)| > |Rests(rs, q)|)
      ensures ok && q == Extent(old(areas)[at]) ==>
                !areaUsed &&
                if old(areas)[at] == main then areas == old(areas) && Maps() == old(Maps())
                else areas == old(areas)[..at] + old(areas)[at + 1..] &&
                     Maps() == old(Maps())[..at] + old(Maps())[at + 1..]
    {
      hide Separate, Backed, Disjoint, Trims, Rests, VmArea.Valid, AllApart;
      ghost var ms, es := Maps(), Extents(areas);
      Distinct(areas);
      at := 0;
      var i := 0;
      while i < |areas| && !areas[i].Inside(q)
        invariant i <= |areas| && forall j :: 0 <= j < i ==> !areas[j].Inside(q)
      {
        i := i + 1;
      }
      if i == |areas| {
        return false, false, 0;
      }
      ok, at := true, i;
      var vm := areas[i];
      if q.base != vm.base || q.size != vm.size {
        areaUsed := vm.ReleasePart(q);
        assert Maps() == ms[at := Trims(ms[at], q) + Rests(ms[at], q)];
      } else {
        if vm != main {
          areas := areas[..i] + areas[i + 1..];
          assert Maps() == ms[..at] + ms[at + 1..];
          assert Extents(areas) == es[..at] + es[at + 1..];
          ApartRemoved(es, at);
        }
        areaUsed := false;
      }
    }
  }

  function Extents(areas: seq<VmArea>): (es: seq<Range>)
    ensures |es| == |areas| && forall i :: 0 <= i < |es| ==> es[i] == Extent(areas[i])
  {
    seq(|areas|, i requires 0 <= i < |areas| => Extent(areas[i]))
  }

  ghost predicate AllApart(es: seq<Range>) {
    && (forall i :: 0 <= i < |es| ==> es[i].size > 0)
    && (forall i, j :: 0 <= i < j < |es| ==> Disjoint(es[i], es[j]))
  }

  lemma ApartOnce(es: seq<Range>, i: nat, j: nat, x: nat)
    requires AllApart(es) && i < |es| && j < |es| && es[i].Has(x) && es[j].Has(x)
    ensures i == j
  {
  }

  lemma ApartAppended(es: seq<Range>, r: Range)
    requires AllApart(es) && r.size > 0 && forall i :: 0 <= i < |es| ==> Disjoint(es[i], r)
    ensures AllApart(es + [r])
  {
  }

  lemma ApartRemoved(es: seq<Range>, at: nat)
    requires AllApart(es) && at < |es|
    ensures AllApart(es[..at] + es[at + 1..])
  {
  }

  lemma Distinct(areas: seq<VmArea>)
    requires AllApart(Extents(areas))
    ensures forall i, j :: 0 <= i < j < |areas| ==> areas[i] != areas[j]
  {
    forall i, j | 0 <= i < j < |areas|
      ensures areas[i] != areas[j]
    {
      assert Disjoint(Extents(areas)[i], Extents(areas)[j]);
    }
  }

  ghost predicate SomeCovers(ms: seq<seq<Range>>, x: nat) {
    exists i :: 0 <= i < |ms| && Covers(ms[i], x)
  }

  /** What an area maps lies inside its extent. */
  ghost predicate Contained(ms: seq<seq<Range>>, es: seq<Range>) {
    && |ms| == |es|
    && (forall i :: 0 <= i < |ms| ==> Separate(ms[i]))
    && (forall i, j :: 0 <= i < |ms| && 0 <= j < |ms[i]| ==> ms[i][j].Within(es[i]))
    && AllApart(es)
  }

  lemma MapsInside(reg: Registry)
    requires reg.Valid()
    ensures Contained(reg.Maps(), Extents(reg.areas))
  {
    var ms: seq<seq<Range>>, es: seq<Range> := reg.Maps(), Extents(reg.areas);
    forall i, j | 0 <= i < |ms| && 0 <= j < |ms[i]|
      ensures ms[i][j].Within(es[i])
    {
      assert reg.areas[i].Valid() && InSome(ms[i][j], reg.areas[i].ds);
    }
  }

  lemma SomeCoversAppended(ms: seq<seq<Range>>, at: nat, r: Range)
    requires at < |ms|
    ensures forall x :: SomeCovers(ms[at := ms[at] + [r]], x) <==> SomeCovers(ms, x) || r.Has(x)
  {
    hide Covers, Count;
    var ms' := ms[at := ms[at] + [r]];
    forall x
      ensures SomeCovers(ms', x) <==> SomeCovers(ms, x) || r.Has(x)
    {
      CoversAppended(ms[at], r, x);
      assert forall i :: 0 <= i < |ms| && i != at ==> ms'[i] == ms[i];
      assert r.Has(x) ==> Covers(ms'[at], x);
      if i :| 0 <= i < |ms| && Covers(ms[i], x) {
        assert Covers(ms'[i], x);
      }
    }
  }

  /** An address of the extent of one area is not mapped in another one. */
  lemma OnlyThere(ms: seq<seq<Range>>, es: seq<Range>, at: nat, x: nat, i: nat)
    requires Contained(ms, es) && at < |ms| && i < |ms| && es[at].Has(x) && Covers(ms[i], x)
    ensures i == at
  {
    var j := CountedMember(ms[i], x);
    assert ms[i][j].Within(es[i]);
    ApartOnce(es, i, at, x);
  }

  lemma SomeCoversReleased(ms: seq<seq<Range>>, es: seq<Range>, at: nat, q: Range)
    requires Contained(ms, es) && at < |ms| && q.Within(es[at])
    ensures forall x :: SomeCovers(ms[at := Trims(ms[at], q) + Rests(ms[at], q)], x) <==> SomeCovers(ms, x) && !q.Has(x)
  {
    hide Covers, Count, Trims, Rests;
    var rs := Trims(ms[at], q) + Rests(ms[at], q);
    var ms' := ms[at := rs];
    forall x: nat
      ensures SomeCovers(ms', x) <==> SomeCovers(ms, x) && !q.Has(x)
    {
      ReleasedCovers(ms[at], q, x);
      assert forall i :: 0 <= i < |ms| && i != at ==> ms'[i] == ms[i];
      if i :| 0 <= i < |ms| && Covers(ms[i], x) {
        if q.Has(x) {
          forall k | 0 <= k < |ms|
            ensures !Covers(ms'[k], x)
          {
            if k != at && Covers(ms[k], x) {
              OnlyThere(ms, es, at, x, k);
            }
          }
        } else {
          assert Covers(ms'[i], x);
        }
      }
      if i :| 0 <= i < |ms'| && Covers(ms'[i], x) {
        assert Covers(ms[i], x);
      }
    }
  }

  lemma ReleasedCovers(rs: seq<Range>, q: Range, x: nat)
    ensures Covers(Trims(rs, q) + Rests(rs, q), x) <==> Covers(rs, x) && !q.Has(x)
  {
    TrimsCount(rs, q, x);
    CountConcat(Trims(rs, q), Rests(rs, q), x);
  }

  lemma SomeCoversDestroyed(ms: seq<seq<Range>>, es: seq<Range>, at: nat, q: Range)
    requires Contained(ms, es) && at < |ms| && q == es[at]
    ensures forall x :: SomeCovers(ms[..at] + ms[at + 1..], x) <==> SomeCovers(ms, x) && !q.Has(x)
  {
    hide Covers, Count;
    var ms' := ms[..at] + ms[at + 1..];
    forall x: nat
      ensures SomeCovers(ms', x) <==> SomeCovers(ms, x) && !q.Has(x)
    {
      if i :| 0 <= i < |ms| && Covers(ms[i], x) && !q.Has(x) {
        if i == at {
          CoveredInside(ms, es, at, x);
        } else {
          assert ms'[if i < at then i else i - 1] == ms[i];
        }
      }
      if i :| 0 <= i < |ms'| && Covers(ms'[i], x) {
        var k := if i < at then i else i + 1;
        assert ms'[i] == ms[k];
        if q.Has(x) {
          OnlyThere(ms, es, at, x, k);
        }
      }
    }
  }

  lemma CoveredInside(ms: seq<seq<Range>>, es: seq<Range>, i: nat, x: nat)
    requires Contained(ms, es) && i < |ms| && Covers(ms[i], x)
    ensures es[i].Has(x)
  {
    var j := CountedMember(ms[i], x);
  }

  lemma CoversAppended(rs: seq<Range>, r: Range, x: nat)
    ensures Covers(rs + [r], x) <==> Covers(rs, x) || r.Has(x)
  {
    CountConcat(rs, [r], x);
    CountOne(r, x);
  }

  function Extent(a: VmArea): Range {
    Range(a.base, a.size)
  }

  // ---------- whole runs ----------

  datatype Op = Reserve(r: Range, taken: bool) | Commit(r: Range) | Release(r: Range)

  /** What an operation did: some pages came into use, some went out of use, or neither. */
  datatype Event = Committed(r: Range) | Released(r: Range) | Nothing

  /** Whether x is live after the event, given whether it was live before. */
  predicate After(e: Event, x: nat, before: bool) {
    match e
    case Committed(r) => r.Has(x) || before
    case Released(r) => !r.Has(x) && before
    case Nothing => before
  }

  /** An address is live after a run if it was committed and has not been released since. */
  predicate Live(run: seq<Event>, x: nat)
    decreases |run|
  {
    run != [] && After(run[|run| - 1], x, Live(run[..|run| - 1], x))
  }

  lemma LiveStep(run: seq<Event>, e: Event, x: nat)
    ensures Live(run + [e], x) <==> After(e, x, Live(run, x))
  {
    assert (run + [e])[..|run|] == run;
  }

  /** An area as the operations see it: where it lies and what memory is attached to it. */
  datatype Plot = Plot(extent: Range, ds: seq<Range>)

  ghost function Plots(areas: seq<VmArea>): (ps: seq<Plot>)
    reads areas
    ensures |ps| == |areas| && forall i :: 0 <= i < |ps| ==> ps[i] == Plot(Extent(areas[i]), areas[i].ds)
  {
    seq(|areas|, i requires 0 <= i < |areas| reads areas => Plot(Extent(areas[i]), areas[i].ds))
  }

  /** The range lies in the plot, apart from all memory attached there. */
  predicate Accepts(p: Plot, r: Range) {
    r.Within(p.extent) && forall i :: 0 <= i < |p.ds| ==> Disjoint(p.ds[i], r)
  }

  predicate CanReserve(ps: seq<Plot>, r: Range) {
    forall i :: 0 <= i < |ps| ==> Disjoint(ps[i].extent, r)
  }

  predicate CanCommit(ps: seq<Plot>, r: Range) {
    exists i :: 0 <= i < |ps| && Accepts(ps[i], r)
  }

  predicate CanRelease(ps: seq<Plot>, r: Range) {
    exists i :: 0 <= i < |ps| && r.Within(ps[i].extent)
  }

  /** What an operation does to the areas, and the event it amounts to. Releasing the whole main
      area is none. */
  ghost predicate Happens(ps: seq<Plot>, main: Range, op: Op, e: Event, ps': seq<Plot>) {
    match op
    case Reserve(r, taken) =>
      e == Nothing && ps' == if !taken && CanReserve(ps, r) then ps + [Plot(r, [])] else ps
    case Commit(r) =>
      if CanCommit(ps, r) then e == Committed(r) && Attached(ps, r, ps') else e == Nothing && ps' == ps
    case Release(r) =>
      if !CanRelease(ps, r) || r == main then e == Nothing && ps' == ps
      else e == Released(r) && Detached(ps, r, ps')
  }

  ghost predicate Attached(ps: seq<Plot>, r: Range, ps': seq<Plot>) {
    exists at :: 0 <= at < |ps| && Accepts(ps[at], r) && ps' == ps[at := Plot(ps[at].extent, ps[at].ds + [r])]
  }

  /** Only the release of a whole area takes memory away from it. */
  ghost predicate Detached(ps: seq<Plot>, r: Range, ps': seq<Plot>) {
    exists at :: 0 <= at < |ps| && r.Within(ps[at].extent)
                 && ps' == if ps[at].extent == r then ps[..at] + ps[at + 1..] else ps
  }

  lemma SameRefusal(a: VmArea, r: Range)
    ensures a.Refuses(r) <==> !Accepts(Plot(Extent(a), a.ds), r)
    ensures a.Inside(r) <==> r.Within(Extent(a))
  {
  }

  lemma ReserveHappens(ps: seq<Plot>, es: seq<Range>, r: Range)
    requires |es| == |ps| && forall i :: 0 <= i < |ps| ==> es[i] == ps[i].extent
    ensures CanReserve(ps, r) <==> forall i :: 0 <= i < |es| ==> Disjoint(es[i], r)
  {
  }

  method PerformReserve(reg: Registry, r: Range, taken: bool)
    requires reg.Valid() && r.size > 0
    modifies reg`areas
    ensures reg.Valid() && fresh(set a | a in reg.areas && a !in old(reg.areas))
    ensures forall x :: SomeCovers(reg.Maps(), x) <==> SomeCovers(old(reg.Maps()), x)
    ensures Happens(old(Plots(reg.areas)), Extent(reg.main), Reserve(r, taken), Nothing, Plots(reg.areas))
  {
    hide SomeCovers, Registry.Valid, CanReserve, Disjoint;
    ghost var ms, ps, es := reg.Maps(), Plots(reg.areas), Extents(reg.areas);
    ReserveHappens(ps, es, r);
    var ok := reg.Reserve(r, taken);
    EmptyCovers(ms);
    if ok {
      assert Extents(reg.areas)[|ps|] == r;
      assert Plots(reg.areas) == ps + [Plot(r, [])];
    }
  }

  method PerformCommit(reg: Registry, r: Range) returns (e: Event)
    requires reg.Valid() && r.size > 0
    modifies reg.areas
    ensures reg.Valid()
    ensures forall x :: SomeCovers(reg.Maps(), x) <==> After(e, x, SomeCovers(old(reg.Maps()), x))
    ensures Happens(old(Plots(reg.areas)), Extent(reg.main), Commit(r), e, Plots(reg.areas))
  {
    hide SomeCovers, Registry.Valid, Accepts, VmArea.Refuses, VmArea.Inside, Disjoint;
    ghost var ms, ps := reg.Maps(), Plots(reg.areas);
    forall i | 0 <= i < |ps|
      ensures Accepts(ps[i], r) <==> !reg.areas[i].Refuses(r)
    {
      SameRefusal(reg.areas[i], r);
    }
    var ok, at := reg.Commit(r);
    e := if ok then Committed(r) else Nothing;
    if ok {
      SomeCoversAppended(ms, at, r);
      assert Plots(reg.areas) == ps[at := Plot(ps[at].extent, ps[at].ds + [r])];
    } else {
      assert Plots(reg.areas) == ps;
    }
  }

  method PerformRelease(reg: Registry, r: Range) returns (e: Event)
    requires reg.Valid() && r.size > 0
    modifies reg`areas, reg.areas
    ensures reg.Valid() && forall a :: a in reg.areas ==> a in old(reg.areas)
    ensures forall x :: SomeCovers(reg.Maps(), x) <==> After(e, x, SomeCovers(old(reg.Maps()), x))
    ensures Happens(old(Plots(reg.areas)), Extent(reg.main), Release(r), e, Plots(reg.areas))
  {
    hide SomeCovers, Registry.Valid, Contained, Trims, Rests, VmArea.Inside, Range.Within, Happens;
    ghost var ms, ps, es := reg.Maps(), Plots(reg.areas), Extents(reg.areas);
    MapsInside(reg);
    MainIndex(reg, r);
    forall i | 0 <= i < |ps|
      ensures r.Within(ps[i].extent) <==> reg.areas[i].Inside(r)
    {
      SameRefusal(reg.areas[i], r);
    }
    ghost var areas := reg.areas;
    var whole := r.base == reg.main.base && r.size == reg.main.size;
    var ok, used, at := reg.Release(r);
    e := if ok && !whole then Released(r) else Nothing;
    assert Plots(areas) == ps;
    if ok && !whole && r == Extent(areas[at]) {
      SomeCoversDestroyed(ms, es, at, r);
      PlotsRemoved(areas, at);
    } else if ok && !whole {
      SomeCoversReleased(ms, es, at, r);
    }
    ReleaseHappens(ps, Extent(reg.main), r, ok, at, e, Plots(reg.areas));
  }

  lemma PlotsRemoved(areas: seq<VmArea>, at: nat)
    requires at < |areas|
    ensures Plots(areas[..at] + areas[at + 1..]) == Plots(areas)[..at] + Plots(areas)[at + 1..]
  {
  }

  lemma ReleaseHappens(ps: seq<Plot>, main: Range, r: Range, ok: bool, at: nat, e: Event, ps': seq<Plot>)
    requires ok <==> CanRelease(ps, r)
    requires e == if ok && r != main then Released(r) else Nothing
    requires e == Nothing ==> ps' == ps
    requires e != Nothing ==>
      && at < |ps| && r.Within(ps[at].extent)
      && ps' == if ps[at].extent == r then ps[..at] + ps[at + 1..] else ps
    ensures Happens(ps, main, Release(r), e, ps')
  {
  }

  /** One operation of a run, and the event it amounts to. */
  method Perform(reg: Registry, op: Op) returns (e: Event)
    requires reg.Valid() && op.r.size > 0
    modifies reg`areas, reg.areas
    ensures reg.Valid() && fresh(set a | a in reg.areas && a !in old(reg.areas))
    ensures forall x :: SomeCovers(reg.Maps(), x) <==> After(e, x, SomeCovers(old(reg.Maps()), x))
    ensures Happens(old(Plots(reg.areas)), Extent(reg.main), op, e, Plots(reg.areas))
  {
    hide SomeCovers, Registry.Valid, Happens;
    match op {
      case Reserve(r, taken) =>
        e := Nothing;
        PerformReserve(reg, r, taken);
      case Commit(r) =>
        e := PerformCommit(reg, r);
      case Release(r) =>
        e := PerformRelease(reg, r);
    }
  }

  /** Only the main area contains the whole main area. */
  lemma MainIndex(reg: Registry, q: Range)
    requires reg.Valid() && q.size > 0
    ensures forall i :: 0 <= i < |reg.areas| && reg.areas[i].Inside(q) && q == Extent(reg.main) ==>
              reg.areas[i] == reg.main
  {
    var es := Extents(reg.areas);
    var m :| 0 <= m < |reg.areas| && reg.areas[m] == reg.main;
    forall i | 0 <= i < |reg.areas| && reg.areas[i].Inside(q) && q == Extent(reg.main)
      ensures reg.areas[i] == reg.main
    {
      assert es[i] == Extent(reg.areas[i]) && es[m] == Extent(reg.main);
      ApartOnce(es, i, m, q.base);
    }
  }

  lemma EmptyCovers(ms: seq<seq<Range>>)
    ensures forall x :: SomeCovers(ms + [[]], x) <==> SomeCovers(ms, x)
  {
    forall x: nat
      ensures SomeCovers(ms + [[]], x) <==> SomeCovers(ms, x)
    {
      if i :| 0 <= i < |ms| && Covers(ms[i], x) {
        assert Covers((ms + [[]])[i], x);
      }
    }
  }

  /**
   * Every run keeps the registry consistent, each operation does to the areas what it should, and
   * afterwards exactly the live addresses are mapped.
   */
  method Run(reg: Registry, ops: seq<Op>) returns (run: seq<Event>, ghost trace: seq<seq<Plot>>)
    requires reg.Valid() && forall x :: !SomeCovers(reg.Maps(), x)
    requires forall i :: 0 <= i < |ops| ==> ops[i].r.size > 0
    modifies reg`areas, reg.areas
    ensures reg.Valid() && |run| == |ops| && |trace| == |ops| + 1
    ensures trace[0] == old(Plots(reg.areas)) && trace[|ops|] == Plots(reg.areas)
    ensures forall i :: 0 <= i < |ops| ==> Happens(trace[i], Extent(reg.main), ops[i], run[i], trace[i + 1])
    ensures forall x :: SomeCovers(reg.Maps(), x) <==> Live(run, x)
  {
    hide SomeCovers, Registry.Valid, Happens;
    run, trace := [], [Plots(reg.areas)];
    for k := 0 to |ops|
      invariant reg.Valid() && |run| == k && |trace| == k + 1
      invariant trace[0] == old(Plots(reg.areas)) && trace[k] == Plots(reg.areas)
      invariant fresh(set a | a in reg.areas && a !in old(reg.areas))
      invariant forall i :: 0 <= i < k ==> Happens(trace[i], Extent(reg.main), ops[i], run[i], trace[i + 1])
      invariant forall x :: SomeCovers(reg.Maps(), x) <==> Live(run, x)
    {
      var e := Perform(reg, ops[k]);
      forall x: nat
        ensures SomeCovers(reg.Maps(), x) <==> Live(run + [e], x)
      {
        LiveStep(run, e, x);
      }
      run, trace := run + [e], trace + [Plots(reg.areas)];
    }
  }
}
