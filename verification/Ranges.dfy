/** Lists of address ranges: which addresses they cover, and how often. */
module Ranges {

  datatype Range = Range(base: nat, size: nat) {
    predicate Has(x: nat) {
      base <= x < base + size
    }

    predicate Within(r: Range) {
      r.base <= base && base + size <= r.base + r.size
    }
  }

  predicate Disjoint(r: Range, q: Range) {
    r.base + r.size <= q.base || q.base + q.size <= r.base
  }

  /** Whether a recorded range meets a query, and the part of it that the query covers. A query of
      size 0 covers nothing, but meets the range that contains its base. */
  function Crossing(r: Range, q: Range): (c: (bool, Range))
    ensures c.0 ==> c.1.Within(r)
    ensures c.0 && r.size > 0 && q.size > 0 ==> c.1.size > 0
    ensures c.0 ==> forall x :: c.1.Has(x) <==> r.Has(x) && q.Has(x)
    ensures !c.0 ==> forall x :: !(r.Has(x) && q.Has(x))
    ensures q.size == 0 ==> (c.0 <==> r.Has(q.base))
  {
    if q.base + (if q.size > 0 then q.size else 1) > r.base && r.base + r.size > q.base then
      var b := if q.base > r.base then q.base else r.base;
      var e := if q.base + q.size < r.base + r.size then q.base + q.size else r.base + r.size;
      (true, Range(b, e - b))
    else (false, r)
  }

  // ---------- coverage ----------

  /** How many ranges of the list contain the address x. */
  function Count(rs: seq<Range>, x: nat): nat {
    if rs == [] then 0 else (if rs[0].Has(x) then 1 else 0) + Count(rs[1..], x)
  }

  predicate NonEmpty(rs: seq<Range>) {
    forall i :: 0 <= i < |rs| ==> rs[i].size > 0
  }

  /** Non-empty ranges no two of which share an address. */
  ghost predicate Separate(rs: seq<Range>) {
    NonEmpty(rs) && forall x: nat :: Count(rs, x) <= 1
  }

  ghost predicate Covers(rs: seq<Range>, x: nat) {
    Count(rs, x) > 0
  }

  lemma {:induction false} CountConcat(a: seq<Range>, b: seq<Range>, x: nat)
    ensures Count(a + b, x) == Count(a, x) + Count(b, x)
  {
    if a == [] {
      assert a + b == b;
    } else {
      assert (a + b)[1..] == a[1..] + b;
      CountConcat(a[1..], b, x);
    }
  }

  lemma CountOne(r: Range, x: nat)
    ensures Count([r], x) == if r.Has(x) then 1 else 0
  {
    assert [r][1..] == [];
  }

  lemma {:induction false} CountMember(rs: seq<Range>, x: nat, i: nat)
    requires i < |rs| && rs[i].Has(x)
    ensures Count(rs, x) >= 1
  {
    if i > 0 {
      CountMember(rs[1..], x, i - 1);
    }
  }

  lemma {:induction false} CountTwo(rs: seq<Range>, x: nat, i: nat, j: nat)
    requires i < j < |rs| && rs[i].Has(x) && rs[j].Has(x)
    ensures Count(rs, x) >= 2
  {
    if i == 0 {
      CountMember(rs[1..], x, j - 1);
    } else {
      CountTwo(rs[1..], x, i - 1, j - 1);
    }
  }

  lemma {:induction false} CountedMember(rs: seq<Range>, x: nat) returns (i: nat)
    requires Count(rs, x) > 0
    ensures i < |rs| && rs[i].Has(x)
  {
    if rs[0].Has(x) {
      i := 0;
    } else {
      i := CountedMember(rs[1..], x);
      i := i + 1;
    }
  }

  lemma {:induction false} CountedNone(rs: seq<Range>, x: nat)
    requires forall i :: 0 <= i < |rs| ==> !rs[i].Has(x)
    ensures Count(rs, x) == 0
  {
    if rs != [] {
      CountedNone(rs[1..], x);
    }
  }

  /** Counting at most once is the same as being pairwise disjoint. */
  lemma {:induction false} SeparatePairs(rs: seq<Range>)
    requires NonEmpty(rs)
    ensures Separate(rs) <==> forall i, j :: 0 <= i < j < |rs| ==> Disjoint(rs[i], rs[j])
  {
    if Separate(rs) {
      forall i, j | 0 <= i < j < |rs|
        ensures Disjoint(rs[i], rs[j])
      {
        if !Disjoint(rs[i], rs[j]) {
          CountTwo(rs, if rs[i].base > rs[j].base then rs[i].base else rs[j].base, i, j);
        }
      }
    }
    if forall i, j :: 0 <= i < j < |rs| ==> Disjoint(rs[i], rs[j]) {
      forall x: nat
        ensures Count(rs, x) <= 1
      {
        PairsCount(rs, x);
      }
    }
  }

  lemma {:induction false} PairsCount(rs: seq<Range>, x: nat)
    requires forall i, j :: 0 <= i < j < |rs| ==> Disjoint(rs[i], rs[j])
    ensures Count(rs, x) <= 1
  {
    if rs != [] {
      var rest := rs[1..];
      assert forall i :: 0 <= i < |rest| ==> rest[i] == rs[i + 1];
      PairsCount(rest, x);
      if rs[0].Has(x) {
        forall i | 0 <= i < |rest|
          ensures !rest[i].Has(x)
        {
          assert Disjoint(rs[0], rs[i + 1]);
        }
        CountedNone(rest, x);
      }
    }
  }

  ghost predicate InSome(r: Range, ds: seq<Range>) {
    exists j :: 0 <= j < |ds| && r.Within(ds[j])
  }

  /** Every range lies inside one of the backing ranges. */
  ghost predicate Backed(rs: seq<Range>, ds: seq<Range>) {
    forall i :: 0 <= i < |rs| ==> InSome(rs[i], ds)
  }

  /** ... and inside only one of them if these are disjoint. */
  lemma BackedOnce(r: Range, ds: seq<Range>, i: nat, j: nat)
    requires Separate(ds) && i < |ds| && j < |ds| && r.size > 0 && r.Within(ds[i]) && r.Within(ds[j])
    ensures i == j
  {
    if i < j {
      CountTwo(ds, r.base, i, j);
    } else if j < i {
      CountTwo(ds, r.base, j, i);
    }
  }

  // ---------- removing a range ----------

  /** What becomes of the record of r when q is released: its left part, else its right part, else nothing. */
  function Trim(r: Range, q: Range): seq<Range> {
    var (crosses, c) := Crossing(r, q);
    if !crosses then [r]
    else if r.base != c.base then [Range(r.base, c.base - r.base)]
    else if c.base + c.size != r.base + r.size then [RightOf(r, c)]
    else []
  }

  /** The right part, if the record already holds the left one. */
  function Rest(r: Range, q: Range): seq<Range> {
    var (crosses, c) := Crossing(r, q);
    if crosses && r.base != c.base && c.base + c.size != r.base + r.size then [RightOf(r, c)] else []
  }

  function RightOf(r: Range, c: Range): Range
    requires c.Within(r)
  {
    Range(c.base + c.size, r.base + r.size - (c.base + c.size))
  }

  function Trims(rs: seq<Range>, q: Range): seq<Range> {
    if rs == [] then [] else Trims(rs[..|rs| - 1], q) + Trim(rs[|rs| - 1], q)
  }

  function Rests(rs: seq<Range>, q: Range): seq<Range> {
    if rs == [] then [] else Rests(rs[..|rs| - 1], q) + Rest(rs[|rs| - 1], q)
  }

  /** One record: every address of it is kept exactly once unless it is released. */
  lemma TrimCount(r: Range, q: Range, x: nat)
    ensures Count(Trim(r, q), x) + Count(Rest(r, q), x) == if r.Has(x) && !q.Has(x) then 1 else 0
    ensures r.size > 0 ==> NonEmpty(Trim(r, q)) && NonEmpty(Rest(r, q))
  {
    var (crosses, c) := Crossing(r, q);
    assert Count([], x) == 0;
    CountOne(r, x);
    if crosses {
      assert c.Has(x) <==> r.Has(x) && q.Has(x);
      CountOne(RightOf(r, c), x);
      if c.base >= r.base {
        CountOne(Range(r.base, c.base - r.base), x);
      }
    } else {
      assert !(r.Has(x) && q.Has(x));
    }
  }

  /** All records: conservation of addresses. */
  lemma {:induction false} TrimsCount(rs: seq<Range>, q: Range, x: nat)
    ensures Count(Trims(rs, q), x) + Count(Rests(rs, q), x) == if q.Has(x) then 0 else Count(rs, x)
  {
    hide Count, Trim, Rest, Crossing;
    if rs == [] {
      CountedNone([], x);
    } else {
      var init, r := rs[..|rs| - 1], rs[|rs| - 1];
      TrimsCount(init, q, x);
      TrimCount(r, q, x);
      CountConcat(Trims(init, q), Trim(r, q), x);
      CountConcat(Rests(init, q), Rest(r, q), x);
      CountConcat(init, [r], x);
      CountOne(r, x);
      assert rs == init + [r];
    }
  }

  lemma {:induction false} TrimsNonEmpty(rs: seq<Range>, q: Range)
    requires NonEmpty(rs)
    ensures NonEmpty(Trims(rs, q)) && NonEmpty(Rests(rs, q))
  {
    hide Count, Trim, Rest, Crossing;
    if rs != [] {
      var init, r := rs[..|rs| - 1], rs[|rs| - 1];
      TrimsNonEmpty(init, q);
      TrimCount(r, q, 0);
    }
  }

  /** The right parts of different records cannot all wait: each such record contains the base of q. */
  lemma {:induction false} RestsCount(rs: seq<Range>, q: Range)
    ensures |Rests(rs, q)| <= Count(rs, q.base)
  {
    if rs != [] {
      var init, r := rs[..|rs| - 1], rs[|rs| - 1];
      RestsCount(init, q);
      CountConcat(init, [r], q.base);
      CountOne(r, q.base);
      assert rs == init + [r];
    }
  }

  /** If one record keeps a right part, the query lies inside it, and no other record crosses. */
  lemma {:induction false} RestInside(rs: seq<Range>, q: Range) returns (i: nat)
    requires Rests(rs, q) != []
    ensures i < |rs| && Splits(rs[i], q)
  {
    var init, r := rs[..|rs| - 1], rs[|rs| - 1];
    if Rest(r, q) != [] {
      i := |rs| - 1;
    } else {
      i := RestInside(init, q);
    }
  }

  /** The query lies inside the range and touches neither of its ends. */
  predicate Splits(r: Range, q: Range) {
    r.base < q.base && q.base + q.size < r.base + r.size
  }

  lemma OnlyOneCrosses(rs: seq<Range>, q: Range, i: nat, j: nat)
    requires Separate(rs) && i < |rs| && j < |rs| && i != j && Splits(rs[i], q)
    ensures !Crossing(rs[j], q).0
  {
    var (crosses, c) := Crossing(rs[j], q);
    if crosses {
      var x := if q.size == 0 then q.base else c.base;
      assert q.size > 0 ==> c.Has(x);
      if i < j {
        CountTwo(rs, x, i, j);
      } else {
        CountTwo(rs, x, j, i);
      }
    }
  }

  lemma {:induction false} TrimsWithin(rs: seq<Range>, q: Range, ds: seq<Range>)
    requires Backed(rs, ds)
    ensures Backed(Trims(rs, q), ds) && Backed(Rests(rs, q), ds)
  {
    if rs != [] {
      var init, r := rs[..|rs| - 1], rs[|rs| - 1];
      TrimsWithin(init, q, ds);
      var j :| 0 <= j < |ds| && r.Within(ds[j]);
      forall i | 0 <= i < |Trim(r, q)|
        ensures InSome(Trim(r, q)[i], ds)
      {
        assert Trim(r, q)[i].Within(ds[j]);
      }
      forall i | 0 <= i < |Rest(r, q)|
        ensures InSome(Rest(r, q)[i], ds)
      {
        assert Rest(r, q)[i].Within(ds[j]);
      }
    }
  }

  /** Releasing q from separate ranges leaves separate ranges that cover exactly the other addresses. */
  lemma ReleaseExact(rs: seq<Range>, q: Range, ds: seq<Range>)
    requires Separate(rs) && Backed(rs, ds)
    ensures var rs' := Trims(rs, q) + Rests(rs, q);
            && Separate(rs') && Backed(rs', ds)
            && (forall x: nat :: Covers(rs', x) <==> Covers(rs, x) && !q.Has(x))
  {
    var rs' := Trims(rs, q) + Rests(rs, q);
    forall x: nat
      ensures Count(rs', x) == if q.Has(x) then 0 else Count(rs, x)
    {
      TrimsCount(rs, q, x);
      CountConcat(Trims(rs, q), Rests(rs, q), x);
    }
    TrimsNonEmpty(rs, q);
    TrimsWithin(rs, q, ds);
  }
}
