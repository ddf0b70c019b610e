/**
 * `search_milvus`: the hits of the title search and the abstract search,
 * merged and deduplicated by article URL into an insertion-ordered
 * dictionary. The dictionary is modelled as its values in insertion order
 * next to the set of its keys.
 */
module QuerySearch {
  import opened Fusion

  /** The URLs of a list of hits. */
  function UrlSet(s: seq<Hit>): set<string>
  {
    set k | 0 <= k < |s| :: s[k].url
  }

  lemma UrlSetSnoc(s: seq<Hit>, h: Hit)
    ensures UrlSet(s + [h]) == UrlSet(s) + {h.url}
  {
    var t := s + [h];
    assert forall k :: 0 <= k < |s| ==> t[k] == s[k];
    assert t[|s|] == h;
  }

  /** The hit lists of the searches, one after the other. */
  function Flatten(results: seq<seq<Hit>>): seq<Hit>
  {
    if |results| == 0 then [] else Flatten(results[..|results| - 1]) + results[|results| - 1]
  }

  /** Each URL once, carried by its first hit, in the order URLs are first seen. */
  function DedupFirst(s: seq<Hit>): seq<Hit>
  {
    if |s| == 0 then []
    else
      var d := DedupFirst(s[..|s| - 1]);
      var h := s[|s| - 1];
      if h.url in UrlSet(d) then d else d + [h]
  }

  /** Where the URL `u` is first seen in `s`. */
  function FirstIndex(s: seq<Hit>, u: string): (i: nat)
    requires u in UrlSet(s)
    ensures i < |s| && s[i].url == u
    ensures forall j :: 0 <= j < i ==> s[j].url != u
  {
    var init := s[..|s| - 1];
    UrlSetSnoc(init, s[|s| - 1]);
    assert s == init + [s[|s| - 1]];
    if u in UrlSet(init) then FirstIndex(init, u) else |s| - 1
  }

  /** The deduplicated hits carry exactly the URLs of the input. */
  lemma {:induction false} DedupUrls(s: seq<Hit>)
    ensures UrlSet(DedupFirst(s)) == UrlSet(s)
    decreases |s|
  {
    if |s| > 0 {
      var init, h := s[..|s| - 1], s[|s| - 1];
      DedupUrls(init);
      UrlSetSnoc(init, h);
      UrlSetSnoc(DedupFirst(init), h);
      assert s == init + [h];
    }
  }

  predicate UniqueUrls(r: seq<Hit>)
  {
    forall a, b :: 0 <= a < b < |r| ==> r[a].url != r[b].url
  }

  /** At most one hit per URL. */
  lemma {:induction false} DedupUnique(s: seq<Hit>)
    ensures UniqueUrls(DedupFirst(s))
    decreases |s|
  {
    if |s| > 0 {
      var init, h := s[..|s| - 1], s[|s| - 1];
      DedupUnique(init);
      var d := DedupFirst(init);
      if h.url !in UrlSet(d) {
        var r := d + [h];
        assert DedupFirst(s) == r;
        forall a, b | 0 <= a < b < |r| ensures r[a].url != r[b].url {
          assert r[a] == d[a];
          if b == |d| {
            assert d[a].url in UrlSet(d);
          } else {
            assert r[b] == d[b];
          }
        }
      } else {
        assert DedupFirst(s) == d;
      }
    }
  }

  /** Appending a hit leaves the first position of every URL already seen where it was. */
  lemma FirstIndexSnoc(s: seq<Hit>, h: Hit, u: string)
    requires u in UrlSet(s + [h])
    ensures u in UrlSet(s) ==> FirstIndex(s + [h], u) == FirstIndex(s, u)
    ensures u !in UrlSet(s) ==> FirstIndex(s + [h], u) == |s|
  {
    assert (s + [h])[..|s|] == s;
  }

  /** One step of the deduplication. */
  lemma DedupSnoc(s: seq<Hit>, h: Hit)
    ensures DedupFirst(s + [h]) == if h.url in UrlSet(DedupFirst(s)) then DedupFirst(s) else DedupFirst(s) + [h]
  {
    assert (s + [h])[..|s|] == s;
  }

  /**
   * Each kept hit is the first hit of the input with its URL, and the kept
   * hits come in the order their URLs are first seen.
   */
  lemma DedupFirstSeen(s: seq<Hit>)
    ensures var r := DedupFirst(s);
            (forall k :: 0 <= k < |r| ==> r[k].url in UrlSet(s) && r[k] == s[FirstIndex(s, r[k].url)])
            && (forall a, b :: 0 <= a < b < |r| ==> FirstIndex(s, r[a].url) < FirstIndex(s, r[b].url))
  {
    DedupFirstHits(s);
    DedupFirstOrder(s);
  }

  /** A kept hit's URL was seen before the last hit, and its first position stays put. */
  lemma DedupKeepsIndex(init: seq<Hit>, h: Hit)
    ensures var d := DedupFirst(init);
            forall k :: 0 <= k < |d| ==>
              d[k].url in UrlSet(init) && d[k].url in UrlSet(init + [h])
              && FirstIndex(init + [h], d[k].url) == FirstIndex(init, d[k].url)
  {
    var d := DedupFirst(init);
    DedupUrls(init);
    UrlSetSnoc(init, h);
    forall k | 0 <= k < |d|
      ensures d[k].url in UrlSet(init) && d[k].url in UrlSet(init + [h])
              && FirstIndex(init + [h], d[k].url) == FirstIndex(init, d[k].url)
    {
      assert d[k].url in UrlSet(d);
      FirstIndexSnoc(init, h, d[k].url);
    }
  }

  /** Each kept hit is the first hit with its URL. */
  lemma {:induction false} DedupFirstHits(s: seq<Hit>)
    ensures var r := DedupFirst(s);
            forall k :: 0 <= k < |r| ==> r[k].url in UrlSet(s) && r[k] == s[FirstIndex(s, r[k].url)]
    decreases |s|
  {
    if |s| > 0 {
      var init, h := s[..|s| - 1], s[|s| - 1];
      assert s == init + [h];
      DedupFirstHits(init);
      DedupKeepsIndex(init, h);
      DedupSnoc(init, h);
      var d := DedupFirst(init);
      if h.url !in UrlSet(d) {
        DedupUrls(init);
        UrlSetSnoc(init, h);
        FirstIndexSnoc(init, h, h.url);
        assert forall k :: 0 <= k < |d| ==> s[FirstIndex(init, d[k].url)] == init[FirstIndex(init, d[k].url)];
      }
    }
  }

  /** The kept hits come in the order their URLs are first seen. */
  lemma {:induction false} DedupFirstOrder(s: seq<Hit>)
    ensures var r := DedupFirst(s);
            (forall k :: 0 <= k < |r| ==> r[k].url in UrlSet(s))
            && forall a, b :: 0 <= a < b < |r| ==> FirstIndex(s, r[a].url) < FirstIndex(s, r[b].url)
    decreases |s|
  {
    if |s| > 0 {
      var init, h := s[..|s| - 1], s[|s| - 1];
      assert s == init + [h];
      DedupFirstOrder(init);
      DedupKeepsIndex(init, h);
      DedupSnoc(init, h);
      var d := DedupFirst(init);
      if h.url !in UrlSet(d) {
        DedupUrls(init);
        UrlSetSnoc(init, h);
        FirstIndexSnoc(init, h, h.url);
        var r := d + [h];
        assert DedupFirst(s) == r;
        forall a, b | 0 <= a < b < |r|
          ensures FirstIndex(s, r[a].url) < FirstIndex(s, r[b].url)
        {
          if b < |d| {
            assert r[a] == d[a] && r[b] == d[b];
          } else {
            assert r[a] == d[a] && r[b] == h;
          }
        }
      }
    }
  }

  /**
   * `search_milvus` after the searches: walk every hit of every result list
   * and keep a hit only when its URL is not yet a key.
   */
  method SearchMilvus(results: seq<seq<Hit>>) returns (unique: seq<Hit>)
    ensures unique == DedupFirst(Flatten(results))
  {
    unique := [];
    var keys: set<string> := {};
    var i := 0;
    while i < |results|
      invariant 0 <= i <= |results|
      invariant unique == DedupFirst(Flatten(results[..i])) && keys == UrlSet(unique)
    {
      unique, keys := AddHits(unique, keys, Flatten(results[..i]), results[i]);
      assert results[..i + 1][..i] == results[..i];
      i := i + 1;
    }
    assert results[..i] == results;
  }

  /** The inner loop of `search_milvus`: the hits of one search, after those of the searches before. */
  method AddHits(unique0: seq<Hit>, keys0: set<string>, ghost before: seq<Hit>, hits: seq<Hit>)
    returns (unique: seq<Hit>, keys: set<string>)
    requires unique0 == DedupFirst(before) && keys0 == UrlSet(unique0)
    ensures unique == DedupFirst(before + hits) && keys == UrlSet(unique)
  {
    unique, keys := unique0, keys0;
    var j := 0;
    assert before + hits[..0] == before;
    while j < |hits|
      invariant 0 <= j <= |hits|
      invariant unique == DedupFirst(before + hits[..j]) && keys == UrlSet(unique)
    {
      var hit := hits[j];
      assert before + hits[..j + 1] == (before + hits[..j]) + [hit];
      DedupSnoc(before + hits[..j], hit);
      if hit.url !in keys {
        UrlSetSnoc(unique, hit);
        unique := unique + [hit];
        keys := keys + {hit.url};
      }
      j := j + 1;
    }
    assert hits[..j] == hits;
  }

  /** Merging the title hits before the abstract hits. */
  lemma FlattenTwo(title: seq<Hit>, abstractHits: seq<Hit>)
    ensures Flatten([title, abstractHits]) == title + abstractHits
  {
    assert [title, abstractHits][..1] == [title];
    assert [title][..0] == [];
    assert Flatten([title]) == title;
  }

  lemma {:induction false} FirstIndexPrefix(t: seq<Hit>, a: seq<Hit>, u: string)
    requires u in UrlSet(t)
    ensures u in UrlSet(t + a) && FirstIndex(t + a, u) == FirstIndex(t, u)
    decreases |a|
  {
    if |a| == 0 {
      assert t + a == t;
    } else {
      var a0 := a[..|a| - 1];
      FirstIndexPrefix(t, a0, u);
      assert (t + a)[..|t + a| - 1] == t + a0;
      UrlSetSnoc(t + a0, a[|a| - 1]);
      assert t + a == (t + a0) + [a[|a| - 1]];
    }
  }

  /** For a URL found by the title search, the title hit is the one kept. */
  lemma TitleWins(title: seq<Hit>, abstractHits: seq<Hit>)
    ensures var r := DedupFirst(Flatten([title, abstractHits]));
            forall k :: 0 <= k < |r| && r[k].url in UrlSet(title) ==> r[k] == title[FirstIndex(title, r[k].url)]
  {
    FlattenTwo(title, abstractHits);
    DedupFirstSeen(title + abstractHits);
    forall u | u in UrlSet(title) ensures u in UrlSet(title + abstractHits) && FirstIndex(title + abstractHits, u) == FirstIndex(title, u) {
      FirstIndexPrefix(title, abstractHits, u);
    }
  }
}
