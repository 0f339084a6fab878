/** Memory pages kept from being swapped out, as long as some locked range touches them. */
module LockedPages {
  import opened Bits

  /** An address and a size. */
  type Range = (nat, nat)

  predicate Touches(r: Range, page: nat, pageSize: nat)
    requires pageSize > 0
  {
    r.1 > 0 && page % pageSize == 0 && page < r.0 + r.1 && r.0 < page + pageSize
  }

  /** A range touches the pages with which it has some byte in common, like this one. */
  lemma TouchesIs(r: Range, page: nat, pageSize: nat, c: nat) returns (b: nat)
    requires pageSize > 0
    ensures Touches(r, page, pageSize) ==> page % pageSize == 0 && r.0 <= b < r.0 + r.1 && page <= b < page + pageSize
    ensures page % pageSize == 0 && r.0 <= c < r.0 + r.1 && page <= c < page + pageSize ==> Touches(r, page, pageSize)
  {
    b := if r.0 < page then page else r.0;
  }

  /** How many ranges touch a page. */
  function Touching(rs: seq<Range>, page: nat, pageSize: nat): nat
    requires pageSize > 0
  {
    if rs == [] then 0
    else Touching(rs[..|rs| - 1], page, pageSize) + if Touches(rs[|rs| - 1], page, pageSize) then 1 else 0
  }

  function Without(rs: seq<Range>, i: nat): seq<Range>
    requires i < |rs|
  {
    rs[..i] + rs[i + 1..]
  }

  lemma {:induction false} TouchingWithout(rs: seq<Range>, i: nat, page: nat, pageSize: nat)
    requires pageSize > 0 && i < |rs|
    ensures Touching(rs, page, pageSize) == Touching(Without(rs, i), page, pageSize) + if Touches(rs[i], page, pageSize) then 1 else 0
  {
    var n := |rs| - 1;
    if i == n {
      assert Without(rs, i) == rs[..n];
    } else {
      TouchingWithout(rs[..n], i, page, pageSize);
      assert Without(rs, i)[..n - 1] == Without(rs[..n], i);
      assert Without(rs, i)[n - 1] == rs[n];
    }
  }

  class LockedPageManager {
    const pageSize: nat
    var histogram: map<nat, int>
    /** The pages that the operating system keeps locked. */
    var locked: set<nat>
    /** The ranges locked and not unlocked yet. */
    ghost var held: seq<Range>

    constructor (pageSize: nat)
      requires pageSize > 0
      ensures Valid() && held == [] && this.pageSize == pageSize
    {
      this.pageSize := pageSize;
      histogram, locked, held := map[], {}, [];
    }

    /** The histogram counts the ranges on every page, and exactly the pages counted are locked. */
    ghost predicate Valid()
      reads this
    {
      && pageSize > 0 && locked == histogram.Keys
      && forall page: nat :: CountIs(histogram, page, Touching(held, page, pageSize))
    }

    /** The first and the last page of a range. */
    function PageOf(addr: nat): (page: nat)
      requires pageSize > 0
      ensures page % pageSize == 0 && page <= addr < page + pageSize
    {
      PageIs(addr, pageSize);
      addr - addr % pageSize
    }

    method LockRange(p: nat, size: nat)
      requires Valid()
      modifies this
      ensures Valid() && held == old(held) + [(p, size)]
    {
      var r := (p, size);
      held := held + [r];
      assert held[..|held| - 1] == old(held);
      if size == 0 { return; }
      var page, end := PageOf(p), PageOf(p + size - 1);
      ghost var first := page;
      NoneBefore(r, first, pageSize);
      while page <= end
        invariant page % pageSize == 0 && first <= page && locked == histogram.Keys && pageSize > 0
        invariant held == old(held) + [r]
        invariant forall q: nat :: CountIs(histogram, q, Touching(old(held), q, pageSize) + if Touches(r, q, pageSize) && q < page then 1 else 0)
        decreases end + pageSize - page
      {
        NextPage(r, first, page, end, pageSize);
        assert CountIs(histogram, page, Touching(old(held), page, pageSize));
        if page !in histogram {
          locked := locked + {page};
          histogram := histogram[page := 1];
        } else {
          histogram := histogram[page := histogram[page] + 1];
        }
        page := page + pageSize;
      }
      forall q: nat ensures CountIs(histogram, q, Touching(held, q, pageSize)) {
        LastPage(r, q, end, page, pageSize);
      }
    }

    /** Unlocks a range that was locked before; the count found is there for every page. */
    method UnlockRange(p: nat, size: nat, ghost i: nat)
      requires Valid() && i < |held| && held[i] == (p, size)
      modifies this
      ensures Valid() && held == Without(old(held), i)
    {
      hide Touches, Touching;
      var r := (p, size);
      held := Without(held, i);
      forall q: nat ensures Touching(old(held), q, pageSize) == Touching(held, q, pageSize) + if Touches(r, q, pageSize) then 1 else 0 {
        TouchingWithout(old(held), i, q, pageSize);
      }
      if size == 0 {
        Untouched(r, pageSize);
        return;
      }
      var page, end := PageOf(p), PageOf(p + size - 1);
      ghost var first := page;
      NoneBefore(r, first, pageSize);
      while page <= end
        invariant page % pageSize == 0 && first <= page && locked == histogram.Keys && pageSize > 0
        invariant held == Without(old(held), i)
        invariant forall q: nat :: CountIs(histogram, q, Touching(held, q, pageSize) + if Touches(r, q, pageSize) && q >= page then 1 else 0)
        decreases end + pageSize - page
      {
        NextPage(r, first, page, end, pageSize);
        assert CountIs(histogram, page, Touching(held, page, pageSize) + 1);
        assert page in histogram;
        histogram := histogram[page := histogram[page] - 1];
        if histogram[page] == 0 {
          locked := locked - {page};
          histogram := histogram - {page};
        }
        page := page + pageSize;
      }
      forall q: nat ensures CountIs(histogram, q, Touching(held, q, pageSize)) {
        LastPage(r, q, end, page, pageSize);
      }
    }
  }

  ghost predicate CountIs(histogram: map<nat, int>, page: nat, n: nat) {
    if n == 0 then page !in histogram else page in histogram && histogram[page] == n
  }

  lemma PageIs(addr: nat, m: nat)
    requires m > 0
    ensures 0 <= addr % m <= addr && (addr - addr % m) % m == 0 && addr % m < m
  {
    var q := addr / m;
    assert addr == q * m + addr % m;
    if q < 0 { Multiple(q, m); }
    if q > 0 { Multiple(q, m); }
    DivMod(addr - addr % m, m, q, 0);
  }

  lemma Untouched(r: Range, m: nat)
    requires m > 0 && r.1 == 0
    ensures forall q: nat :: !Touches(r, q, m)
  {
  }

  lemma Apart(q: nat, page: nat, m: nat)
    requires m > 0 && q % m == 0 && page % m == 0 && q > page
    ensures q >= page + m && (page + m) % m == 0
  {
    var a, b := q / m, page / m;
    assert q == a * m && page == b * m;
    assert q - page == (a - b) * m;
    Multiple(a - b, m);
    DivMod(page + m, m, b + 1, 0);
  }

  lemma NextAligned(page: nat, m: nat)
    requires m > 0 && page % m == 0
    ensures (page + m) % m == 0
  {
    assert page == page / m * m;
    DivMod(page + m, m, page / m + 1, 0);
  }

  /** No page before the first one is touched. */
  lemma NoneBefore(r: Range, first: nat, m: nat)
    requires m > 0 && first % m == 0 && first <= r.0
    ensures forall q: nat | q < first :: !Touches(r, q, m)
  {
    forall q: nat | q < first ensures !Touches(r, q, m) {
      if q % m == 0 { Apart(first, q, m); }
    }
  }

  /** The pages from the first to the last are touched, and a step skips none. */
  lemma NextPage(r: Range, first: nat, page: nat, end: nat, m: nat)
    requires m > 0 && page % m == 0 && r.1 > 0
    requires first <= page <= end && r.0 < first + m && end <= r.0 + r.1 - 1
    ensures Touches(r, page, m) && (page + m) % m == 0
    ensures forall q: nat | Touches(r, q, m) :: q < page + m <==> q < page || q == page
  {
    NextAligned(page, m);
    forall q: nat | Touches(r, q, m) ensures q < page + m <==> q < page || q == page {
      if q > page { Apart(q, page, m); }
    }
  }

  lemma LastPage(r: Range, q: nat, end: nat, page: nat, m: nat)
    requires m > 0 && end % m == 0 && r.1 > 0 && r.0 + r.1 - 1 < end + m && page > end
    ensures Touches(r, q, m) ==> q < page
  {
    if Touches(r, q, m) && q > end { Apart(q, end, m); }
  }
}
