/**
 * How the discovery crawlers pick article links out of an issue page:
 * which table-of-contents sections they read, the identifier they take from
 * each link, and the de-duplication by identifier that keeps the first link
 * seen for each article.
 */
module ArticleIds {
  import opened Wrappers
  import opened Text
  import Extractors

  // ---------------------------------------------------------------------
  // urlparse and urljoin, for the links the crawlers meet

  /** The text before the first `c`, or all of it. */
  function Before(s: string, c: char): (r: string)
    ensures r <= s && c !in r
    ensures |r| < |s| ==> s[|r|] == c
    decreases |s|
  {
    if |s| == 0 || s[0] == c then "" else [s[0]] + Before(s[1..], c)
  }

  /**
   * `urlparse(href).path`: the `#fragment` and the `?query` are cut off, and
   * an absolute http(s) link loses its `scheme://host` part.
   */
  function UrlPath(href: string): string
  {
    var t := Before(Before(href, '#'), '?');
    var afterScheme :=
      if StartsWith(t, "https://") then Some(8)
      else if StartsWith(t, "http://") then Some(7)
      else None;
    match afterScheme
    case None => t
    case Some(n) =>
      match FindFrom(t[n..], "/", 0)
      case None => ""
      case Some(k) => t[n + k..]
  }

  /** Text without `c` is all before it. */
  lemma BeforeAbsent(s: string, c: char)
    requires c !in s
    ensures Before(s, c) == s
  {
  }

  /** The first `/` of `pre + "/" + post`, when `pre` has none. */
  lemma FirstSlash(pre: string, post: string)
    requires '/' !in pre
    ensures FindFrom(pre + ("/" + post), "/", 0) == Some(|pre|)
  {
    var s := pre + ("/" + post);
    assert s[|pre|..|pre| + 1] == "/";
    forall j | 0 <= j < |pre| ensures !At(s, "/", j) {
      assert s[j] == pre[j];
      assert s[j..j + 1] == [pre[j]];
    }
    FindFromIs(s, "/", 0, |pre|);
  }

  /** A rooted path without query or fragment is its own path. */
  lemma UrlPathOfPath(path: string)
    requires '#' !in path && '?' !in path && |path| > 0 && path[0] == '/'
    ensures UrlPath(path) == path
  {
    BeforeAbsent(path, '#');
    BeforeAbsent(path, '?');
    assert !StartsWith(path, "https://") && !StartsWith(path, "http://");
  }

  /** Behind an https host, it is still the path. */
  lemma UrlPathBehindHost(host: string, path: string)
    requires '#' !in path && '?' !in path && '#' !in host && '?' !in host && '/' !in host
    requires |path| > 0 && path[0] == '/'
    ensures UrlPath("https://" + (host + path)) == path
  {
    var abs := "https://" + (host + path);
    assert '#' !in abs && '?' !in abs;
    BeforeAbsent(abs, '#');
    BeforeAbsent(abs, '?');
    assert StartsWith(abs, "https://") by {
      assert abs[..8] == "https://";
    }
    assert abs[8..] == host + ("/" + path[1..]) by {
      assert path == "/" + path[1..];
    }
    FirstSlash(host, path[1..]);
    assert abs[8..][|host|..] == path;
  }

  /**
   * `urljoin(base_url, href)` for a base that is a bare `scheme://host`:
   * an absolute http(s) link stays as it is, a rooted path goes after the
   * host, and any other path goes under the host's root.
   */
  function UrlJoin(base: string, href: string): string
  {
    if StartsWith(href, "https://") || StartsWith(href, "http://") then href
    else if StartsWith(href, "/") then base + href
    else base + "/" + href
  }

  // ---------------------------------------------------------------------
  // The two kinds of article identifier

  /** `xs.index(x)`, or None where Python raises because `x not in xs`. */
  function IndexOf(xs: seq<string>, x: string): (r: Option<nat>)
    ensures r.Some? ==> r.value < |xs| && xs[r.value] == x && x !in xs[..r.value]
    ensures r.None? <==> x !in xs
    decreases |xs|
  {
    if |xs| == 0 then None
    else if xs[0] == x then Some(0)
    else
      var r := IndexOf(xs[1..], x);
      assert xs == [xs[0]] + xs[1..];
      if r.Some? then
        assert xs[..r.value + 1] == [xs[0]] + xs[1..][..r.value];
        Some(r.value + 1)
      else None
  }

  /**
   * The path segment after the first `article` segment (the Elsevier and
   * Cell-press sites: `/article/S0012-3692(24)04200-1/fulltext`), or None
   * when there is no `article` segment or nothing after it.
   */
  function PathSegmentId(href: string): Option<string>
  {
    var parts := Split(UrlPath(href), "/");
    match IndexOf(parts, "article")
    case None => None
    case Some(i) => if i + 1 < |parts| then Some(parts[i + 1]) else None
  }

  /** `split("/")` cuts at the first slash. */
  lemma SplitAtSlash(pre: string, post: string)
    requires '/' !in pre
    ensures Split(pre + ("/" + post), "/") == [pre] + Split(post, "/")
  {
    var s := pre + ("/" + post);
    FirstSlash(pre, post);
    assert s[..|pre|] == pre;
    assert s[|pre| + 1..] == post;
  }

  /** How `split("/")` cuts an `/article/<id>/...` path. */
  lemma ArticlePathParts(id: string, more: string)
    requires '/' !in id
    ensures Split("/" + ("article" + ("/" + (id + ("/" + more)))), "/") == ["", "article", id] + Split(more, "/")
  {
    var tail := id + ("/" + more);
    var x := "article" + ("/" + tail);
    var a := Split(more, "/");
    SplitAtSlash(id, more);
    assert Split(tail, "/") == [id] + a;
    assert '/' !in "article";
    SplitAtSlash("article", tail);
    assert Split(x, "/") == ["article"] + ([id] + a);
    SplitAtSlash("", x);
    assert "" + ("/" + x) == "/" + x;
    assert Split("/" + x, "/") == [""] + (["article"] + ([id] + a));
    assert [""] + (["article"] + ([id] + a)) == ["", "article", id] + a;
  }

  /** The segment after `/article/` is the identifier. */
  lemma PathSegmentIdReads(id: string, more: string)
    requires '/' !in id && '?' !in id && '#' !in id
    requires '?' !in more && '#' !in more
    ensures PathSegmentId("/" + ("article" + ("/" + (id + ("/" + more))))) == Some(id)
  {
    var path := "/" + ("article" + ("/" + (id + ("/" + more))));
    assert UrlPath(path) == path by {
      UrlPathOfPath(path);
    }
    ArticlePathParts(id, more);
    var parts := Split(path, "/");
    assert parts[0] == "" && parts[1..][0] == "article";
    assert IndexOf(parts, "article") == Some(1);
  }

  /** `\d+` followed by the character `c` at the start of `u`: the digits and the text after `c`. */
  function DigitsThen(u: string, c: char): (r: Option<(string, string)>)
    ensures r.Some? ==> |r.value.0| > 0 && AllDigits(r.value.0) && u == r.value.0 + ([c] + r.value.1)
  {
    var e := DigitRunEnd(u, 0);
    if e > 0 && e < |u| && u[e] == c then
      assert u == u[..e] + ([c] + u[e + 1..]);
      Some((u[..e], u[e + 1..]))
    else None
  }

  /**
   * The pattern `/(S\d+\-\d+\(\d+\)\d+\-\d+)/` at the start of `t`, giving its
   * group: an Elsevier PII such as `S0272-6386(24)00790-1`. Each digit run is
   * followed by a non-digit, so the greedy runs need no backtracking.
   */
  function MatchPii(t: string): (r: Option<string>)
    ensures r.Some? ==> |r.value| > 0 && r.value[0] == 'S'
  {
    if |t| < 2 || t[0] != '/' || t[1] != 'S' then None
    else
      match DigitsThen(t[2..], '-')
      case None => None
      case Some(ra) =>
        match DigitsThen(ra.1, '(')
        case None => None
        case Some(rb) =>
          match DigitsThen(rb.1, ')')
          case None => None
          case Some(rc) =>
            match DigitsThen(rc.1, '-')
            case None => None
            case Some(rd) =>
              match DigitsThen(rd.1, '/')
              case None => None
              case Some(re) => Some("S" + ra.0 + "-" + rb.0 + "(" + rc.0 + ")" + rd.0 + "-" + re.0)
  }

  /** `re.search(...).group(1)` over the whole link, as the kidney crawlers do. */
  function PiiId(href: string): Option<string>
  {
    Extractors.Search(href, MatchPii)
  }

  /** A digit run followed by `c` is read in full. */
  lemma DigitsThenReads(digits: string, c: char, post: string)
    requires |digits| > 0 && AllDigits(digits) && !IsDigit(c)
    ensures DigitsThen(digits + ([c] + post), c) == Some((digits, post))
  {
    var u := digits + ([c] + post);
    Extractors.DigitRunIs(u, 0, |digits|);
    assert u[..|digits|] == digits;
    assert u[|digits| + 1..] == post;
  }

  /** The identifier of a PII path segment is read whole. */
  lemma MatchPiiReads(a: string, b: string, c: string, d: string, e: string, rest: string)
    requires |a| > 0 && |b| > 0 && |c| > 0 && |d| > 0 && |e| > 0
    requires AllDigits(a) && AllDigits(b) && AllDigits(c) && AllDigits(d) && AllDigits(e)
    ensures MatchPii("/S" + (a + ("-" + (b + ("(" + (c + (")" + (d + ("-" + (e + ("/" + rest)))))))))))
            == Some("S" + a + "-" + b + "(" + c + ")" + d + "-" + e)
  {
    var u5 := e + ("/" + rest);
    var u4 := d + ("-" + u5);
    var u3 := c + (")" + u4);
    var u2 := b + ("(" + u3);
    var u1 := a + ("-" + u2);
    var t := "/S" + u1;
    assert t[2..] == u1;
    DigitsThenReads(a, '-', u2);
    DigitsThenReads(b, '(', u3);
    DigitsThenReads(c, ')', u4);
    DigitsThenReads(d, '-', u5);
    DigitsThenReads(e, '/', rest);
  }

  /** Which identifier a crawler de-duplicates on. */
  datatype IdRule =
    | PathSegment  // the segment after `article` (CHEST, JACI, J Pediatrics, J Invest Dermatol)
    | Pii          // the PII pattern (Kidney International, AJKD)

  function IdOf(rule: IdRule): string -> Option<string>
  {
    match rule
    case PathSegment => PathSegmentId
    case Pii => PiiId
  }

  // ---------------------------------------------------------------------
  // De-duplication by identifier

  /** The identifiers of the links, as the `processed_article_ids` set collects them. */
  function Ids(id: string -> Option<string>, hrefs: seq<string>): (r: set<string>)
    ensures forall i :: 0 <= i < |hrefs| && id(hrefs[i]).Some? ==> id(hrefs[i]).value in r
    decreases |hrefs|
  {
    if |hrefs| == 0 then {}
    else
      var init := hrefs[..|hrefs| - 1];
      var x := id(hrefs[|hrefs| - 1]);
      assert forall i :: 0 <= i < |init| ==> init[i] == hrefs[i];
      Ids(id, init) + if x.Some? then {x.value} else {}
  }

  /**
   * The links the crawler keeps, in the order it meets them: a link with an
   * identifier not seen before. A link without an identifier is dropped.
   */
  function Kept(id: string -> Option<string>, hrefs: seq<string>): seq<string>
    decreases |hrefs|
  {
    if |hrefs| == 0 then []
    else
      var init := hrefs[..|hrefs| - 1];
      var last := hrefs[|hrefs| - 1];
      var x := id(last);
      if x.None? || x.value in Ids(id, init) then Kept(id, init) else Kept(id, init) + [last]
  }

  /** Every kept link is one of the links and has an identifier; every identifier is kept once. */
  lemma {:induction false} KeptCoversIds(id: string -> Option<string>, hrefs: seq<string>)
    ensures forall k :: k in Kept(id, hrefs) ==> k in hrefs && id(k).Some?
    ensures Ids(id, Kept(id, hrefs)) == Ids(id, hrefs)
    decreases |hrefs|
  {
    if |hrefs| > 0 {
      var init := hrefs[..|hrefs| - 1];
      var last := hrefs[|hrefs| - 1];
      KeptCoversIds(id, init);
      var k := Kept(id, init);
      if id(last).Some? && id(last).value !in Ids(id, init) {
        assert (k + [last])[..|k|] == k;
      }
    }
  }

  /** No two kept links share an identifier. */
  lemma {:induction false} KeptIdsDistinct(id: string -> Option<string>, hrefs: seq<string>)
    ensures forall i, j :: 0 <= i < j < |Kept(id, hrefs)| ==>
              id(Kept(id, hrefs)[i]) != id(Kept(id, hrefs)[j])
    decreases |hrefs|
  {
    if |hrefs| > 0 {
      var init := hrefs[..|hrefs| - 1];
      var last := hrefs[|hrefs| - 1];
      KeptIdsDistinct(id, init);
      KeptCoversIds(id, init);
      var k := Kept(id, init);
      if id(last).Some? && id(last).value !in Ids(id, init) {
        forall i | 0 <= i < |k| ensures id(k[i]) != id(last) {
          assert id(k[i]).value in Ids(id, k);
        }
      }
    }
  }

  /** The first link with a given identifier is the one kept. */
  lemma {:induction false} FirstLinkKept(id: string -> Option<string>, hrefs: seq<string>, i: nat)
    requires i < |hrefs| && id(hrefs[i]).Some?
    requires id(hrefs[i]).value !in Ids(id, hrefs[..i])
    ensures hrefs[i] in Kept(id, hrefs)
    decreases |hrefs|
  {
    var init := hrefs[..|hrefs| - 1];
    if i < |hrefs| - 1 {
      assert init[..i] == hrefs[..i];
      FirstLinkKept(id, init, i);
    } else {
      assert hrefs[..i] == init;
    }
  }

  /**
   * The de-duplication loop: `processed_article_ids` and the `article_links`
   * set, one link at a time, each kept link joined to the site's base URL.
   */
  method CollectArticleLinks(id: string -> Option<string>, base: string, hrefs: seq<string>)
    returns (articleLinks: set<string>, processed: set<string>)
    ensures processed == Ids(id, hrefs)
    ensures articleLinks == (set k | k in Kept(id, hrefs) :: UrlJoin(base, k))
  {
    articleLinks, processed := {}, {};
    var i := 0;
    while i < |hrefs|
      invariant 0 <= i <= |hrefs|
      invariant processed == Ids(id, hrefs[..i])
      invariant articleLinks == (set k | k in Kept(id, hrefs[..i]) :: UrlJoin(base, k))
    {
      var href := hrefs[i];
      assert hrefs[..i + 1][..i] == hrefs[..i];
      var x := id(href);
      if x.Some? {
        if x.value in processed {
          i := i + 1;
          continue;
        }
        processed := processed + {x.value};
        articleLinks := articleLinks + {UrlJoin(base, href)};
      }
      i := i + 1;
    }
    assert hrefs[..|hrefs|] == hrefs;
  }

  // ---------------------------------------------------------------------
  // Which table-of-contents sections are read

  /** One table-of-contents section: its heading, if it has one, and the links of its list items. */
  datatype Section = Section(heading: Option<string>, hrefs: seq<string>)

  /** Kidney International's section keywords, misspelt variant included. */
  const KidneyKeywords: seq<string> := ["basic research", "clinical investigation", "clincial investigation", "research letters"]
  /** AJKD's section keywords. */
  const AjkdKeywords: seq<string> := ["special report", "original investigations"]

  /** The heading, lower-cased, contains one of the keywords. */
  predicate HeadingHas(s: Section, keywords: seq<string>)
  {
    s.heading.Some? && exists k :: k in keywords && Contains(Lower(s.heading.value), k)
  }

  /** The links of the sections whose heading has a keyword, in page order. */
  function KeywordSectionLinks(sections: seq<Section>, keywords: seq<string>): (r: seq<string>)
    ensures forall l :: l in r <==> exists i :: 0 <= i < |sections| && HeadingHas(sections[i], keywords) && l in sections[i].hrefs
    decreases |sections|
  {
    if |sections| == 0 then []
    else
      var init := sections[..|sections| - 1];
      var last := sections[|sections| - 1];
      var r := KeywordSectionLinks(init, keywords) + if HeadingHas(last, keywords) then last.hrefs else [];
      assert forall i :: 0 <= i < |init| ==> init[i] == sections[i];
      r
  }

  /** Kidney International reads a "Clinical Investigations" section, whatever the heading's case; a section without a heading is never read. */
  lemma KidneySectionsRead(a: string)
    ensures KeywordSectionLinks([Section(Some("Clinical Investigations"), [a])], KidneyKeywords) == [a]
    ensures KeywordSectionLinks([Section(None, [a])], KidneyKeywords) == []
  {
    var h := "Clinical Investigations";
    assert Lower(h)[..22] == KidneyKeywords[1];
    ContainsIff(Lower(h), KidneyKeywords[1]);
    assert HeadingHas(Section(Some(h), [a]), KidneyKeywords);
  }

  /** AJKD reads a "Special Reports" section, whatever the heading's case. */
  lemma AjkdSectionsRead(a: string)
    ensures KeywordSectionLinks([Section(Some("Special Reports"), [a])], AjkdKeywords) == [a]
  {
    var h := "Special Reports";
    assert Lower(h)[..14] == AjkdKeywords[0];
    ContainsIff(Lower(h), AjkdKeywords[0]);
    assert HeadingHas(Section(Some(h), [a]), AjkdKeywords);
  }

  const StopWords: seq<string> := ["brief reports", "corrigendum", "frontmatter"]

  /** Python's `\w`, restricted to ASCII. */
  predicate IsWordChar(c: char)
  {
    'a' <= c <= 'z' || 'A' <= c <= 'Z' || '0' <= c <= '9' || c == '_'
  }

  /** `\b` at position i: a word character on exactly one side. */
  predicate Boundary(t: string, i: nat)
  {
    (0 < i <= |t| && IsWordChar(t[i - 1])) != (i < |t| && IsWordChar(t[i]))
  }

  /** `\b{word}s?\b` matches at position k. */
  predicate StopMatchAt(t: string, w: string, k: nat)
  {
    Boundary(t, k) && At(t, w, k)
    && ((At(t, w + "s", k) && Boundary(t, k + |w| + 1)) || Boundary(t, k + |w|))
  }

  /** `any(re.search(rf"\b{word}s?\b", h2_text) for word in stop_words)`. */
  predicate HeadingStops(t: string)
  {
    exists w, k: nat :: w in StopWords && k <= |t| && StopMatchAt(t, w, k)
  }

  /** A stop word standing as a word of the heading stops the scan. */
  lemma StopWordStops(w: string, pre: string, post: string)
    requires w in StopWords
    requires |pre| == 0 || !IsWordChar(pre[|pre| - 1])
    requires |post| == 0 || !IsWordChar(post[0])
    ensures HeadingStops(pre + (w + post))
  {
    var t := pre + (w + post);
    assert t[|pre|..|pre| + |w|] == w;
    assert Boundary(t, |pre| + |w|) by {
      assert IsWordChar(t[|pre| + |w| - 1]);
    }
    assert StopMatchAt(t, w, |pre|);
  }

  /** `\bws\b` where the plural stands as a word. */
  lemma PluralMatchAt(w: string, pre: string, post: string)
    requires |w| > 0 && IsWordChar(w[0])
    requires |pre| == 0 || !IsWordChar(pre[|pre| - 1])
    requires |post| == 0 || !IsWordChar(post[0])
    ensures StopMatchAt(pre + ((w + "s") + post), w, |pre|)
  {
    var u := pre + ((w + "s") + post);
    var k := |pre|;
    assert At(u, w + "s", k) by {
      assert u[k..k + |w| + 1] == w + "s";
    }
    assert At(u, w, k) by {
      assert u[k..k + |w|] == w;
    }
    assert u[k] == w[0];
    assert u[k + |w|] == 's';
  }

  /** So does its plural. */
  lemma StopWordPluralStops(w: string, pre: string, post: string)
    requires w in StopWords
    requires |pre| == 0 || !IsWordChar(pre[|pre| - 1])
    requires |post| == 0 || !IsWordChar(post[0])
    ensures HeadingStops(pre + ((w + "s") + post))
  {
    PluralMatchAt(w, pre, post);
  }

  /** The pattern asks for "brief reports": a "Brief Report" heading does not stop the scan. */
  lemma SingularBriefReportDoesNotStop()
    ensures !HeadingStops("brief report")
  {
    var t := "brief report";
    forall w, k: nat | w in StopWords && k <= |t| ensures !StopMatchAt(t, w, k) {
      if k + |w| <= |t| {
        assert t[k..k + |w|][0] == t[k] != w[0];
      }
    }
  }

  /** JACI: sections without a heading are passed over, and the first heading with a stop word ends the page. */
  function UntilStop(sections: seq<Section>): seq<string>
    decreases |sections|
  {
    if |sections| == 0 then []
    else if sections[0].heading.None? then UntilStop(sections[1..])
    else if HeadingStops(Lower(sections[0].heading.value)) then []
    else sections[0].hrefs + UntilStop(sections[1..])
  }

  /** Nothing after a stop heading is read, whatever it holds. */
  lemma {:induction false} UntilStopIgnoresRest(front: seq<Section>, stop: Section, rest: seq<Section>)
    requires stop.heading.Some? && HeadingStops(Lower(stop.heading.value))
    ensures UntilStop(front + [stop] + rest) == UntilStop(front)
    decreases |front|
  {
    if |front| > 0 {
      assert (front + [stop] + rest)[1..] == front[1..] + [stop] + rest;
      UntilStopIgnoresRest(front[1..], stop, rest);
    } else {
      assert front + [stop] + rest == [stop] + rest;
    }
  }

  /** Without a stop heading every headed section is read, in order. */
  lemma {:induction false} UntilStopReadsHeaded(sections: seq<Section>)
    requires forall i :: 0 <= i < |sections| && sections[i].heading.Some? ==> !HeadingStops(Lower(sections[i].heading.value))
    ensures forall l :: l in UntilStop(sections) <==>
              exists i :: 0 <= i < |sections| && sections[i].heading.Some? && l in sections[i].hrefs
    decreases |sections|
  {
    if |sections| > 0 {
      UntilStopReadsHeaded(sections[1..]);
      assert forall i :: 1 <= i < |sections| ==> sections[1..][i - 1] == sections[i];
    }
  }

  /** The section loop of the JACI crawler, with its `break`. */
  method SectionsUntilStop(sections: seq<Section>) returns (hrefs: seq<string>)
    ensures hrefs == UntilStop(sections)
  {
    hrefs := [];
    var i := 0;
    while i < |sections|
      invariant 0 <= i <= |sections|
      invariant UntilStop(sections) == hrefs + UntilStop(sections[i..])
    {
      var s := sections[i];
      assert sections[i..][1..] == sections[i + 1..];
      if s.heading.Some? {
        if HeadingStops(Lower(s.heading.value)) {
          break;
        }
        hrefs := hrefs + s.hrefs;
      }
      i := i + 1;
    }
  }

  /** Which sections of an issue page a crawler reads. */
  datatype SectionRule = AnyOf(keywords: seq<string>) | UntilStopWord

  function SectionLinks(rule: SectionRule, sections: seq<Section>): seq<string>
  {
    match rule
    case AnyOf(keywords) => KeywordSectionLinks(sections, keywords)
    case UntilStopWord => UntilStop(sections)
  }
}
