/**
 * Retrieval fusion of `get_journal_details`: the hits of the title, abstract
 * and authors searches are concatenated, stably sorted by distance, and the
 * first three kept.
 */
module Fusion {
  import opened Wrappers

  /** One search hit: its distance to the query and the article fields returned with it. */
  datatype Hit = Hit(distance: real, title: string, url: string, abstractText: string, authors: string)

  /** Number of hits each search asks for. */
  const SearchLimit: nat := 2

  /** Number of fused hits kept. */
  const FusedLimit: nat := 3

  predicate Sorted(s: seq<Hit>)
  {
    forall i, j :: 0 <= i < j < |s| ==> s[i].distance <= s[j].distance
  }

  /** The hits of `s` at distance `d`, in their order in `s`. */
  function AtDistance(s: seq<Hit>, d: real): seq<Hit>
  {
    if |s| == 0 then [] else (if s[0].distance == d then [s[0]] else []) + AtDistance(s[1..], d)
  }

  lemma {:induction false} AtDistanceAppend(a: seq<Hit>, b: seq<Hit>, d: real)
    ensures AtDistance(a + b, d) == AtDistance(a, d) + AtDistance(b, d)
    decreases |a|
  {
    if |a| > 0 {
      assert (a + b)[0] == a[0];
      assert (a + b)[1..] == a[1..] + b;
      AtDistanceAppend(a[1..], b, d);
    } else {
      assert a + b == b;
    }
  }

  /** Insert `x` before the first hit that is not closer than it. */
  function InsertHit(t: seq<Hit>, x: Hit): seq<Hit>
  {
    if |t| == 0 || x.distance <= t[0].distance then [x] + t else [t[0]] + InsertHit(t[1..], x)
  }

  /** Insertion sort by distance: `sorted(hits, key=lambda h: h.distance)`. */
  function SortByDistance(s: seq<Hit>): seq<Hit>
  {
    if |s| == 0 then [] else InsertHit(SortByDistance(s[1..]), s[0])
  }

  lemma {:induction false} InsertHitPerm(t: seq<Hit>, x: Hit)
    ensures multiset(InsertHit(t, x)) == multiset(t) + multiset{x}
    ensures |InsertHit(t, x)| == |t| + 1
    decreases |t|
  {
    if |t| > 0 && x.distance > t[0].distance {
      InsertHitPerm(t[1..], x);
      assert t == [t[0]] + t[1..];
    }
  }

  /** The first hit after inserting is either `x` or the old first hit. */
  lemma InsertHitHead(t: seq<Hit>, x: Hit)
    ensures |InsertHit(t, x)| > 0
    ensures InsertHit(t, x)[0] == x || (|t| > 0 && InsertHit(t, x)[0] == t[0])
  {
  }

  lemma {:induction false} InsertHitSorted(t: seq<Hit>, x: Hit)
    requires Sorted(t)
    ensures Sorted(InsertHit(t, x))
    decreases |t|
  {
    if |t| > 0 && x.distance > t[0].distance {
      var r := InsertHit(t[1..], x);
      InsertHitSorted(t[1..], x);
      InsertHitHead(t[1..], x);
      assert t[0].distance <= r[0].distance;
      assert forall j :: 0 <= j < |r| ==> r[0].distance <= r[j].distance;
    }
  }

  /** Inserting keeps the order of the hits at each distance, with `x` first among its equals. */
  lemma {:induction false} InsertHitStable(t: seq<Hit>, x: Hit, d: real)
    ensures AtDistance(InsertHit(t, x), d) == (if x.distance == d then [x] else []) + AtDistance(t, d)
    decreases |t|
  {
    if |t| > 0 && x.distance > t[0].distance {
      InsertHitStable(t[1..], x, d);
      assert ([t[0]] + InsertHit(t[1..], x))[1..] == InsertHit(t[1..], x);
    }
  }

  /** The sort orders by distance, loses and adds nothing, and keeps equal distances in input order. */
  lemma {:induction false} SortByDistanceSpec(s: seq<Hit>)
    ensures Sorted(SortByDistance(s))
    ensures multiset(SortByDistance(s)) == multiset(s)
    ensures forall d :: AtDistance(SortByDistance(s), d) == AtDistance(s, d)
    decreases |s|
  {
    if |s| > 0 {
      SortByDistanceSpec(s[1..]);
      InsertHitSorted(SortByDistance(s[1..]), s[0]);
      InsertHitPerm(SortByDistance(s[1..]), s[0]);
      assert s == [s[0]] + s[1..];
      forall d ensures AtDistance(SortByDistance(s), d) == AtDistance(s, d) {
        InsertHitStable(SortByDistance(s[1..]), s[0], d);
      }
    }
  }

  function Min(a: nat, b: nat): nat
  {
    if a <= b then a else b
  }

  /** The fused result: the first three of the sorted concatenation. */
  function Fuse(title: seq<Hit>, abstractHits: seq<Hit>, authors: seq<Hit>): seq<Hit>
  {
    var sorted := SortByDistance(title + abstractHits + authors);
    sorted[..Min(FusedLimit, |sorted|)]
  }

  /** `sorted` returns as many hits as it is given. */
  lemma SortLength(s: seq<Hit>)
    ensures |SortByDistance(s)| == |s|
  {
    SortByDistanceSpec(s);
    assert |multiset(SortByDistance(s))| == |multiset(s)|;
  }

  /** At most three hits, exactly three when the searches found that many, and none only when they found none. */
  lemma FuseLength(title: seq<Hit>, abstractHits: seq<Hit>, authors: seq<Hit>)
    ensures var r := Fuse(title, abstractHits, authors);
            |r| <= FusedLimit
            && (|r| == 0 <==> |title| + |abstractHits| + |authors| == 0)
            && (|title| + |abstractHits| + |authors| >= FusedLimit ==> |r| == FusedLimit)
  {
    SortLength(title + abstractHits + authors);
  }

  /** In a sorted list, no hit outside a prefix is closer than one inside it. */
  lemma PrefixClosest(sorted: seq<Hit>, k: nat)
    requires Sorted(sorted) && k <= |sorted|
    ensures forall x, h :: x in sorted[..k] && h in sorted && h !in sorted[..k] ==> x.distance <= h.distance
  {
    forall x, h | x in sorted[..k] && h in sorted && h !in sorted[..k] ensures x.distance <= h.distance {
      var i :| 0 <= i < k && sorted[i] == x;
      var j :| 0 <= j < |sorted| && sorted[j] == h;
    }
  }

  /**
   * The fused hits come closest first, are drawn from the searches' hits,
   * and no hit left out is closer than one kept.
   */
  lemma FuseClosest(title: seq<Hit>, abstractHits: seq<Hit>, authors: seq<Hit>)
    ensures var r := Fuse(title, abstractHits, authors);
            Sorted(r)
            && multiset(r) <= multiset(title + abstractHits + authors)
            && forall x, h :: x in r && h in title + abstractHits + authors && h !in r ==> x.distance <= h.distance
  {
    var all := title + abstractHits + authors;
    var sorted := SortByDistance(all);
    var k := Min(FusedLimit, |sorted|);
    var r := sorted[..k];
    assert Sorted(r) by {
      SortByDistanceSpec(all);
    }
    assert multiset(r) <= multiset(all) by {
      SortByDistanceSpec(all);
      assert sorted == r + sorted[k..];
      assert multiset(sorted) == multiset(r) + multiset(sorted[k..]);
    }
    assert forall x, h :: x in r && h in all && h !in r ==> x.distance <= h.distance by {
      SortByDistanceSpec(all);
      assert forall h :: h in all ==> h in sorted by {
        forall h | h in all ensures h in sorted {
          assert h in multiset(all);
        }
      }
      PrefixClosest(sorted, k);
    }
  }

  /**
   * Equal distances keep title-then-abstract-then-authors order: at every
   * distance the fused hits are a prefix of the title hits, then the
   * abstract hits, then the authors hits at that distance.
   */
  lemma FuseStable(title: seq<Hit>, abstractHits: seq<Hit>, authors: seq<Hit>, d: real)
    ensures var r := AtDistance(Fuse(title, abstractHits, authors), d);
            r <= AtDistance(title, d) + AtDistance(abstractHits, d) + AtDistance(authors, d)
  {
    var all := title + abstractHits + authors;
    var sorted := SortByDistance(all);
    SortByDistanceSpec(all);
    SortLength(all);
    var k := Min(FusedLimit, |sorted|);
    assert sorted == sorted[..k] + sorted[k..];
    AtDistanceAppend(sorted[..k], sorted[k..], d);
    AtDistanceAppend(title + abstractHits, authors, d);
    AtDistanceAppend(title, abstractHits, d);
  }

  /**
   * `get_journal_details` after the three searches: the top three of the
   * sorted hits, collected one by one, or `None` when there are none.
   */
  method GetJournalDetails(title: seq<Hit>, abstractHits: seq<Hit>, authors: seq<Hit>) returns (r: Option<seq<Hit>>)
    ensures r.None? <==> |title| + |abstractHits| + |authors| == 0
    ensures r.Some? ==> r.value == Fuse(title, abstractHits, authors)
  {
    var sorted := SortByDistance(title + abstractHits + authors);
    SortLength(title + abstractHits + authors);
    var top := sorted[..Min(FusedLimit, |sorted|)];
    var retrieved: seq<Hit> := [];
    var i := 0;
    while i < |top|
      invariant 0 <= i <= |top| && retrieved == top[..i]
    {
      retrieved := retrieved + [top[i]];
      i := i + 1;
      assert top[..i] == top[..i - 1] + [top[i - 1]];
    }
    assert top[..|top|] == top;
    r := if |retrieved| == 0 then None else Some(retrieved);
  }
}
