/** The screenings-of-a-donor query: the donor's rows, newest first. The
    database sorts; the model states the order with an insertion sort whose
    result is proved ordered and a permutation of the donor's rows. Rows
    with equal timestamps may come back in any order from the database;
    the sort picks one of the orders the query allows. */
module ScreeningRepository {
  import opened Entities

  /** The rows whose DonorId is `donorId`, in table order. */
  function ScreeningsOf(screenings: seq<Screening>, donorId: Guid): (r: seq<Screening>)
    ensures forall s :: s in r <==> s in screenings && s.donorId == donorId
    ensures |r| <= |screenings|
  {
    if screenings == [] then []
    else
      var rest := ScreeningsOf(screenings[1..], donorId);
      assert forall s :: s in screenings <==> s == screenings[0] || s in screenings[1..];
      if screenings[0].donorId == donorId then [screenings[0]] + rest else rest
  }

  /** Every row is at least as recent as the rows after it. */
  ghost predicate NewestFirst(xs: seq<Screening>) {
    forall i, j :: 0 <= i < j < |xs| ==> xs[i].createdAt >= xs[j].createdAt
  }

  function InsertNewestFirst(s: Screening, xs: seq<Screening>): (r: seq<Screening>)
    requires NewestFirst(xs)
    ensures NewestFirst(r)
    ensures multiset(r) == multiset(xs) + multiset{s}
    ensures |r| == |xs| + 1
  {
    if xs == [] then
      [s]
    else if s.createdAt >= xs[0].createdAt then
      HeadIsNewest(xs);
      PrependNewest(s, xs);
      [s] + xs
    else
      TailNewestFirst(xs);
      var rest := InsertNewestFirst(s, xs[1..]);
      InsertedNotNewer(s, xs, rest);
      PrependNewest(xs[0], rest);
      assert xs == [xs[0]] + xs[1..];
      [xs[0]] + rest
  }

  /** The head of a newest-first list is at least as recent as every row. */
  lemma HeadIsNewest(xs: seq<Screening>)
    requires xs != [] && NewestFirst(xs)
    ensures forall t :: t in xs ==> t.createdAt <= xs[0].createdAt
  {
    forall t | t in xs ensures t.createdAt <= xs[0].createdAt {
      var k :| 0 <= k < |xs| && xs[k] == t;
      if k > 0 {
        assert xs[0].createdAt >= xs[k].createdAt;
      }
    }
  }

  lemma TailNewestFirst(xs: seq<Screening>)
    requires xs != [] && NewestFirst(xs)
    ensures NewestFirst(xs[1..])
  {
    forall i, j | 0 <= i < j < |xs[1..]| ensures xs[1..][i].createdAt >= xs[1..][j].createdAt {
      assert xs[1..][i] == xs[i + 1] && xs[1..][j] == xs[j + 1];
    }
  }

  /** A row no older than a newest-first list can go in front of it. */
  lemma PrependNewest(x: Screening, rest: seq<Screening>)
    requires NewestFirst(rest)
    requires forall t :: t in rest ==> t.createdAt <= x.createdAt
    ensures NewestFirst([x] + rest)
  {
    var ys := [x] + rest;
    forall i, j | 0 <= i < j < |ys| ensures ys[i].createdAt >= ys[j].createdAt {
      assert ys[j] == rest[j - 1];
      if i == 0 {
        assert rest[j - 1] in rest;
      } else {
        assert ys[i] == rest[i - 1];
      }
    }
  }

  lemma InsertedNotNewer(s: Screening, xs: seq<Screening>, rest: seq<Screening>)
    requires xs != [] && NewestFirst(xs) && s.createdAt < xs[0].createdAt
    requires multiset(rest) == multiset(xs[1..]) + multiset{s}
    ensures forall t :: t in rest ==> t.createdAt <= xs[0].createdAt
  {
    HeadIsNewest(xs);
    forall t | t in rest ensures t.createdAt <= xs[0].createdAt {
      assert t in multiset(rest);
      if t != s {
        assert t in multiset(xs[1..]);
        assert t in xs[1..];
        assert t in xs;
      }
    }
  }

  /** `OrderByDescending(s => s.CreatedAt)`. */
  function OrderByCreatedDesc(xs: seq<Screening>): (r: seq<Screening>)
    ensures NewestFirst(r)
    ensures multiset(r) == multiset(xs)
  {
    if xs == [] then []
    else
      assert xs == [xs[0]] + xs[1..];
      InsertNewestFirst(xs[0], OrderByCreatedDesc(xs[1..]))
  }

  /** `GetByDonorIdAsync` (and the donor repository's `GetDonorScreeningsAsync`):
      exactly the donor's screenings, newest first. */
  function GetByDonorId(screenings: seq<Screening>, donorId: Guid): (r: seq<Screening>)
    ensures NewestFirst(r)
    ensures multiset(r) == multiset(ScreeningsOf(screenings, donorId))
    ensures forall s :: s in r <==> s in screenings && s.donorId == donorId
  {
    var r := OrderByCreatedDesc(ScreeningsOf(screenings, donorId));
    assert forall s :: s in r <==> s in multiset(r);
    r
  }
}
