/** The classifier and aggregation store of `extract_image_urls`. The three
    Python structures are `image_urls` (a set), `image_reference_count` (a
    `defaultdict(int)`) and `emails_with_unique_images` (a
    `defaultdict(list)`); a missing key reads as 0 or as the empty list. */
module Aggregation {
  import opened Wrappers
  import opened Text
  import opened Domains

  /** The `email_info` record attached to every reference. */
  datatype Info = Info(seqNo: nat, sender: Option<string>, date: Option<string>)

  datatype Store = Store(urls: set<string>, counts: map<string, nat>, refs: map<string, seq<Info>>)

  const EmptyStore: Store := Store({}, map[], map[])

  /** `image_reference_count[u]` */
  function Count(st: Store, u: string): nat {
    if u in st.counts then st.counts[u] else 0
  }

  /** `emails_with_unique_images[u]` */
  function Refs(st: Store, u: string): seq<Info> {
    if u in st.refs then st.refs[u] else []
  }

  /** The run's options. `ignoreEmbedded` and `maxUniqueNames` are accepted
      but never read. */
  datatype Config = Config(
    domainFilter: Option<string>,
    ignoreEmbedded: bool,
    uniqueNames: bool,
    maxUniqueNames: int,
    imageDomain: ImageDomain)

  /** The two uses of `urlparse`: `netloc` (host extraction) and `geturl()`
      (the key used in unique mode), both left uninterpreted. */
  datatype UrlParser = UrlParser(netloc: string -> string, geturl: string -> string)

  /** `src and not is_embedded_image(src)`: present, non-empty, not `cid:`. */
  predicate IsCandidate(src: Option<string>) {
    src.Some? && src.value != "" && !IsEmbedded(src.value)
  }

  /** The full test of line 69. */
  predicate Accepts(cfg: Config, up: UrlParser, senderDomain: Option<string>, src: Option<string>)
    ensures Accepts(cfg, up, senderDomain, src) ==> src.Some? && src.value != "" && !IsEmbedded(src.value)
    ensures cfg.uniqueNames ==> (Accepts(cfg, up, senderDomain, src) <==> IsCandidate(src))
    ensures !cfg.uniqueNames && IsCandidate(src) ==>
              (Accepts(cfg, up, senderDomain, src) <==> IsDifferentDomain(up.netloc, src.value, senderDomain, cfg.imageDomain))
  {
    IsCandidate(src) && (IsDifferentDomain(up.netloc, src.value, senderDomain, cfg.imageDomain) || cfg.uniqueNames)
  }

  /** The key an accepted URL is stored under. */
  function KeyOf(cfg: Config, up: UrlParser, url: string): string {
    if cfg.uniqueNames then up.geturl(url) else url
  }

  /** The store update for an accepted URL (lines 70-80). */
  function Record(st: Store, cfg: Config, up: UrlParser, url: string, info: Info): (r: Store)
    ensures Count(r, KeyOf(cfg, up, url)) == Count(st, KeyOf(cfg, up, url)) + 1
    ensures st.urls <= r.urls <= st.urls + {KeyOf(cfg, up, url)}
  {
    if cfg.uniqueNames then
      var key := up.geturl(url);
      var c := Count(st, key) + 1;
      var counted := st.(counts := st.counts[key := c]);
      if c > 1 then counted
      else counted.(urls := st.urls + {key}, refs := st.refs[key := Refs(st, key) + [info]])
    else
      Store(st.urls + {url}, st.counts[url := Count(st, url) + 1], st.refs[url := Refs(st, url) + [info]])
  }

  /** One iteration of the `img` loop. */
  function AcceptSrc(st: Store, cfg: Config, up: UrlParser, senderDomain: Option<string>, info: Info, src: Option<string>): Store {
    if Accepts(cfg, up, senderDomain, src) then Record(st, cfg, up, src.value, info) else st
  }

  /** The whole `img` loop over one HTML part's `src` values, in document order. */
  function ExtractSrcs(st: Store, cfg: Config, up: UrlParser, senderDomain: Option<string>, info: Info, srcs: seq<Option<string>>): (r: Store)
    ensures st.urls <= r.urls
    ensures (forall i :: 0 <= i < |srcs| ==> !IsCandidate(srcs[i])) ==> r == st
    decreases |srcs|
  {
    if |srcs| == 0 then st
    else AcceptSrc(ExtractSrcs(st, cfg, up, senderDomain, info, srcs[..|srcs| - 1]), cfg, up, senderDomain, info, srcs[|srcs| - 1])
  }

  // ----- Reference definitions -----

  /** How many of `srcs` are accepted and stored under key `u`. */
  ghost function Hits(cfg: Config, up: UrlParser, senderDomain: Option<string>, srcs: seq<Option<string>>, u: string): nat
    decreases |srcs|
  {
    if |srcs| == 0 then 0
    else
      var src := srcs[|srcs| - 1];
      Hits(cfg, up, senderDomain, srcs[..|srcs| - 1], u)
      + (if Accepts(cfg, up, senderDomain, src) && KeyOf(cfg, up, src.value) == u then 1 else 0)
  }

  /** A src accepted by the test of line 69 is a hit for its own key. */
  lemma {:induction false} HitsPositive(cfg: Config, up: UrlParser, senderDomain: Option<string>, srcs: seq<Option<string>>, i: nat)
    requires i < |srcs| && Accepts(cfg, up, senderDomain, srcs[i])
    ensures Hits(cfg, up, senderDomain, srcs, KeyOf(cfg, up, srcs[i].value)) >= 1
    decreases |srcs|
  {
    if i < |srcs| - 1 {
      HitsPositive(cfg, up, senderDomain, srcs[..|srcs| - 1], i);
    }
  }

  /** The `src` values that can be accepted at all, in order. */
  ghost function Candidates(srcs: seq<Option<string>>): seq<Option<string>>
    decreases |srcs|
  {
    if |srcs| == 0 then []
    else Candidates(srcs[..|srcs| - 1]) + (if IsCandidate(srcs[|srcs| - 1]) then [srcs[|srcs| - 1]] else [])
  }

  function Repeat(info: Info, n: nat): seq<Info> {
    seq(n, _ => info)
  }

  /** Store shape in the default mode: the keys of the three structures agree,
      every count is the length of its reference list and at least 1, and no
      stored URL is empty or `cid:`. */
  ghost predicate ListedInv(st: Store) {
    && st.counts.Keys == st.urls
    && st.refs.Keys == st.urls
    && (forall u :: u in st.counts ==> u in st.refs && st.counts[u] == |st.refs[u]| && st.counts[u] >= 1)
    && (forall u :: u in st.urls ==> u != "" && !IsEmbedded(u))
  }

  /** Store shape in unique mode: the keys agree, and every key has been
      counted at least once and holds exactly one reference. */
  ghost predicate UniqueInv(st: Store) {
    && st.counts.Keys == st.urls
    && st.refs.Keys == st.urls
    && (forall u :: u in st.counts ==> u in st.refs && st.counts[u] >= 1 && |st.refs[u]| == 1)
  }

  ghost predicate ModeInv(st: Store, cfg: Config) {
    if cfg.uniqueNames then UniqueInv(st) else ListedInv(st)
  }

  // ----- One accepted or rejected src -----

  /** Default mode: the URL itself is added to the set, its count goes up by
      one, the message info is appended to its list, nothing else changes. */
  lemma RecordListed(st: Store, cfg: Config, up: UrlParser, url: string, info: Info)
    requires !cfg.uniqueNames
    ensures Record(st, cfg, up, url, info).urls == st.urls + {url}
    ensures Count(Record(st, cfg, up, url, info), url) == Count(st, url) + 1
    ensures Refs(Record(st, cfg, up, url, info), url) == Refs(st, url) + [info]
    ensures forall u :: u != url ==>
              Count(Record(st, cfg, up, url, info), u) == Count(st, u) &&
              Refs(Record(st, cfg, up, url, info), u) == Refs(st, u)
  {
  }

  /** Unique mode: the key's count goes up on every encounter; only on the
      first one (count was 0) is the key added to the set and the info
      appended; afterwards set and lists stay as they are. */
  lemma RecordUnique(st: Store, cfg: Config, up: UrlParser, url: string, info: Info)
    requires cfg.uniqueNames
    ensures Count(Record(st, cfg, up, url, info), up.geturl(url)) == Count(st, up.geturl(url)) + 1
    ensures forall u :: u != up.geturl(url) ==> Count(Record(st, cfg, up, url, info), u) == Count(st, u)
    ensures Count(st, up.geturl(url)) == 0 ==>
              Record(st, cfg, up, url, info).urls == st.urls + {up.geturl(url)} &&
              Refs(Record(st, cfg, up, url, info), up.geturl(url)) == Refs(st, up.geturl(url)) + [info]
    ensures Count(st, up.geturl(url)) > 0 ==>
              Record(st, cfg, up, url, info).urls == st.urls &&
              Record(st, cfg, up, url, info).refs == st.refs
    ensures forall u :: u != up.geturl(url) ==> Refs(Record(st, cfg, up, url, info), u) == Refs(st, u)
  {
  }

  /** A missing, empty or `cid:` src changes nothing, whatever the
      configuration, `ignoreEmbedded` included. */
  lemma RejectedSrcLeavesStore(st: Store, cfg: Config, up: UrlParser, senderDomain: Option<string>, info: Info, src: Option<string>)
    requires src == None || src == Some("") || (src.Some? && IsEmbedded(src.value))
    ensures AcceptSrc(st, cfg, up, senderDomain, info, src) == st
  {
  }

  /** Unique mode ignores the cross-domain test: neither the sender domain
      nor the host extraction influences the outcome. */
  lemma UniqueBypassesDomain(st: Store, cfg: Config, up: UrlParser, netloc': string -> string,
                             d1: Option<string>, d2: Option<string>, info: Info, src: Option<string>)
    requires cfg.uniqueNames
    ensures AcceptSrc(st, cfg, up, d1, info, src) == AcceptSrc(st, cfg, up.(netloc := netloc'), d2, info, src)
  {
  }

  /** Default mode: a URL whose host equals the sender domain, and equals the
      image domain or meets a falsy one, is not recorded. */
  lemma SameDomainRejected(st: Store, cfg: Config, up: UrlParser, info: Info, url: string)
    requires !cfg.uniqueNames
    requires !cfg.imageDomain.Truthy() || cfg.imageDomain.EqualsHost(Host(up.netloc, url))
    ensures AcceptSrc(st, cfg, up, Some(Host(up.netloc, url)), info, Some(url)) == st
  {
  }

  lemma AcceptSrcKeepsInv(st: Store, cfg: Config, up: UrlParser, senderDomain: Option<string>, info: Info, src: Option<string>)
    requires ModeInv(st, cfg)
    ensures ModeInv(AcceptSrc(st, cfg, up, senderDomain, info, src), cfg)
  {
    if Accepts(cfg, up, senderDomain, src) {
      var st' := Record(st, cfg, up, src.value, info);
      if cfg.uniqueNames {
        var key := up.geturl(src.value);
        assert st'.counts.Keys == st.counts.Keys + {key};
      } else {
        assert st'.counts.Keys == st.counts.Keys + {src.value};
        assert st'.refs.Keys == st.refs.Keys + {src.value};
      }
    }
  }

  // ----- A whole HTML part -----

  lemma {:induction false} ExtractKeepsInv(st: Store, cfg: Config, up: UrlParser, senderDomain: Option<string>, info: Info, srcs: seq<Option<string>>)
    requires ModeInv(st, cfg)
    ensures ModeInv(ExtractSrcs(st, cfg, up, senderDomain, info, srcs), cfg)
    decreases |srcs|
  {
    if |srcs| > 0 {
      var prev := srcs[..|srcs| - 1];
      ExtractKeepsInv(st, cfg, up, senderDomain, info, prev);
      AcceptSrcKeepsInv(ExtractSrcs(st, cfg, up, senderDomain, info, prev), cfg, up, senderDomain, info, srcs[|srcs| - 1]);
    }
  }

  /** In both modes each key's count grows by exactly the number of accepted
      srcs stored under it. */
  lemma {:induction false} ExtractCounts(st: Store, cfg: Config, up: UrlParser, senderDomain: Option<string>, info: Info, srcs: seq<Option<string>>, u: string)
    ensures Count(ExtractSrcs(st, cfg, up, senderDomain, info, srcs), u) == Count(st, u) + Hits(cfg, up, senderDomain, srcs, u)
    decreases |srcs|
  {
    if |srcs| > 0 {
      var prev := srcs[..|srcs| - 1];
      var src := srcs[|srcs| - 1];
      ExtractCounts(st, cfg, up, senderDomain, info, prev, u);
      var mid := ExtractSrcs(st, cfg, up, senderDomain, info, prev);
      if Accepts(cfg, up, senderDomain, src) {
        if cfg.uniqueNames {
          RecordUnique(mid, cfg, up, src.value, info);
        } else {
          RecordListed(mid, cfg, up, src.value, info);
        }
      }
    }
  }

  /** Default mode: each key's list grows by one copy of the message info per
      accepted src, appended at the end in encounter order, and a key is in
      the set afterwards iff it was before or some src was stored under it. */
  /** Default mode, one src: the list of `u` gets one more copy of the info
      exactly when the src is accepted as `u`, and `u` is in the set after
      exactly when it was before or the src was accepted as `u`. */
  lemma AcceptSrcRefsListed(st: Store, cfg: Config, up: UrlParser, senderDomain: Option<string>, info: Info, src: Option<string>, u: string)
    requires !cfg.uniqueNames
    ensures var hit := if Accepts(cfg, up, senderDomain, src) && src.value == u then 1 else 0;
            && Refs(AcceptSrc(st, cfg, up, senderDomain, info, src), u) == Refs(st, u) + Repeat(info, hit)
            && (u in AcceptSrc(st, cfg, up, senderDomain, info, src).urls <==> u in st.urls || hit > 0)
  {
    if Accepts(cfg, up, senderDomain, src) {
      RecordListed(st, cfg, up, src.value, info);
    }
  }

  lemma RepeatAppend(info: Info, a: nat, b: nat)
    ensures Repeat(info, a) + Repeat(info, b) == Repeat(info, a + b)
  {
  }

  lemma {:induction false} ExtractRefsListed(st: Store, cfg: Config, up: UrlParser, senderDomain: Option<string>, info: Info, srcs: seq<Option<string>>, u: string)
    requires !cfg.uniqueNames
    ensures Refs(ExtractSrcs(st, cfg, up, senderDomain, info, srcs), u) == Refs(st, u) + Repeat(info, Hits(cfg, up, senderDomain, srcs, u))
    ensures u in ExtractSrcs(st, cfg, up, senderDomain, info, srcs).urls <==> u in st.urls || Hits(cfg, up, senderDomain, srcs, u) > 0
    decreases |srcs|
  {
    if |srcs| > 0 {
      var prev := srcs[..|srcs| - 1];
      var src := srcs[|srcs| - 1];
      ExtractRefsListed(st, cfg, up, senderDomain, info, prev, u);
      var mid := ExtractSrcs(st, cfg, up, senderDomain, info, prev);
      var n := Hits(cfg, up, senderDomain, prev, u);
      var hit := if Accepts(cfg, up, senderDomain, src) && src.value == u then 1 else 0;
      assert Hits(cfg, up, senderDomain, srcs, u) == n + hit;
      assert ExtractSrcs(st, cfg, up, senderDomain, info, srcs) == AcceptSrc(mid, cfg, up, senderDomain, info, src);
      AcceptSrcRefsListed(mid, cfg, up, senderDomain, info, src, u);
      RepeatAppend(info, n, hit);
    }
  }

  /** Unique mode: a key's list is set to the info of its first encounter
      (when its count was still 0) and never touched again, and the key
      joins the set on that first encounter. */
  lemma {:induction false} ExtractRefsUnique(st: Store, cfg: Config, up: UrlParser, senderDomain: Option<string>, info: Info, srcs: seq<Option<string>>, u: string)
    requires cfg.uniqueNames && UniqueInv(st)
    ensures Refs(ExtractSrcs(st, cfg, up, senderDomain, info, srcs), u) ==
            (if Count(st, u) == 0 && Hits(cfg, up, senderDomain, srcs, u) > 0 then [info] else Refs(st, u))
    ensures u in ExtractSrcs(st, cfg, up, senderDomain, info, srcs).urls <==> u in st.urls || Hits(cfg, up, senderDomain, srcs, u) > 0
    decreases |srcs|
  {
    if |srcs| > 0 {
      var prev := srcs[..|srcs| - 1];
      var src := srcs[|srcs| - 1];
      ExtractRefsUnique(st, cfg, up, senderDomain, info, prev, u);
      ExtractCounts(st, cfg, up, senderDomain, info, prev, u);
      ExtractKeepsInv(st, cfg, up, senderDomain, info, prev);
      var mid := ExtractSrcs(st, cfg, up, senderDomain, info, prev);
      if Accepts(cfg, up, senderDomain, src) {
        RecordUnique(mid, cfg, up, src.value, info);
      }
    }
  }

  /** Dropping every missing, empty or `cid:` src beforehand changes nothing. */
  lemma {:induction false} ExtractIgnoresNonCandidates(st: Store, cfg: Config, up: UrlParser, senderDomain: Option<string>, info: Info, srcs: seq<Option<string>>)
    ensures ExtractSrcs(st, cfg, up, senderDomain, info, srcs) == ExtractSrcs(st, cfg, up, senderDomain, info, Candidates(srcs))
    decreases |srcs|
  {
    if |srcs| > 0 {
      var prev := srcs[..|srcs| - 1];
      var src := srcs[|srcs| - 1];
      ExtractIgnoresNonCandidates(st, cfg, up, senderDomain, info, prev);
      if IsCandidate(src) {
        var c := Candidates(prev) + [src];
        assert c[..|c| - 1] == Candidates(prev);
      } else {
        assert Candidates(srcs) == Candidates(prev);
        assert ExtractSrcs(st, cfg, up, senderDomain, info, srcs) == ExtractSrcs(st, cfg, up, senderDomain, info, prev);
      }
    }
  }

  // ----- Growth: what one step may do to the reference lists -----

  /** `b` is `a` followed by copies of `info` only. */
  ghost predicate GrowsBy(a: seq<Info>, b: seq<Info>, info: Info) {
    |a| <= |b| && b[..|a|] == a && forall i :: |a| <= i < |b| ==> b[i] == info
  }

  /** From `st` to `st'`: the set only grows, no count goes down, and every
      reference list only gets `info` appended at its end. */
  ghost predicate Grows(st: Store, st': Store, info: Info) {
    && st.urls <= st'.urls
    && (forall u :: Count(st, u) <= Count(st', u))
    && (forall u :: GrowsBy(Refs(st, u), Refs(st', u), info))
  }

  /** Growing never loses an element of a list. */
  lemma GrowsByKeeps(a: seq<Info>, b: seq<Info>, info: Info, x: Info)
    requires GrowsBy(a, b, info) && x in a
    ensures x in b
  {
    var i :| 0 <= i < |a| && a[i] == x;
    assert b[..|a|][i] == x;
  }

  lemma GrowsReflexive(st: Store, info: Info)
    ensures Grows(st, st, info)
  {
    forall u
      ensures GrowsBy(Refs(st, u), Refs(st, u), info)
    {
      assert Refs(st, u)[..|Refs(st, u)|] == Refs(st, u);
    }
  }

  lemma GrowsTransitive(a: Store, b: Store, c: Store, info: Info)
    requires Grows(a, b, info) && Grows(b, c, info)
    ensures Grows(a, c, info)
  {
    forall u
      ensures GrowsBy(Refs(a, u), Refs(c, u), info)
    {
      var ra, rb, rc := Refs(a, u), Refs(b, u), Refs(c, u);
      assert GrowsBy(ra, rb, info) && GrowsBy(rb, rc, info);
      assert rc[..|ra|] == rc[..|rb|][..|ra|];
      forall i | |ra| <= i < |rc|
        ensures rc[i] == info
      {
        if i < |rb| {
          assert rc[i] == rc[..|rb|][i] == rb[i];
        }
      }
    }
  }

  /** In both modes a step only adds: a URL to the set, one to a count, the
      current message's info to the end of a list. */
  lemma AcceptSrcGrows(st: Store, cfg: Config, up: UrlParser, senderDomain: Option<string>, info: Info, src: Option<string>)
    ensures Grows(st, AcceptSrc(st, cfg, up, senderDomain, info, src), info)
  {
    var st' := AcceptSrc(st, cfg, up, senderDomain, info, src);
    if Accepts(cfg, up, senderDomain, src) {
      if cfg.uniqueNames {
        RecordUnique(st, cfg, up, src.value, info);
      } else {
        RecordListed(st, cfg, up, src.value, info);
      }
      forall u
        ensures GrowsBy(Refs(st, u), Refs(st', u), info)
      {
        assert (Refs(st, u) + [info])[..|Refs(st, u)|] == Refs(st, u);
        assert Refs(st, u)[..|Refs(st, u)|] == Refs(st, u);
      }
    } else {
      GrowsReflexive(st, info);
    }
  }

  lemma {:induction false} ExtractGrows(st: Store, cfg: Config, up: UrlParser, senderDomain: Option<string>, info: Info, srcs: seq<Option<string>>)
    ensures Grows(st, ExtractSrcs(st, cfg, up, senderDomain, info, srcs), info)
    decreases |srcs|
  {
    if |srcs| == 0 {
      GrowsReflexive(st, info);
    } else {
      var prev := srcs[..|srcs| - 1];
      var mid := ExtractSrcs(st, cfg, up, senderDomain, info, prev);
      ExtractGrows(st, cfg, up, senderDomain, info, prev);
      AcceptSrcGrows(mid, cfg, up, senderDomain, info, srcs[|srcs| - 1]);
      GrowsTransitive(st, mid, ExtractSrcs(st, cfg, up, senderDomain, info, srcs), info);
    }
  }

  /** An accepted src ends up in the set in default mode. */
  lemma {:induction false} ExtractStoresAccepted(st: Store, cfg: Config, up: UrlParser, senderDomain: Option<string>, info: Info, srcs: seq<Option<string>>, i: nat)
    requires !cfg.uniqueNames
    requires i < |srcs| && Accepts(cfg, up, senderDomain, srcs[i])
    ensures srcs[i].value in ExtractSrcs(st, cfg, up, senderDomain, info, srcs).urls
    decreases |srcs|
  {
    var prev := srcs[..|srcs| - 1];
    var mid := ExtractSrcs(st, cfg, up, senderDomain, info, prev);
    if i < |srcs| - 1 {
      ExtractStoresAccepted(st, cfg, up, senderDomain, info, prev, i);
      AcceptSrcGrows(mid, cfg, up, senderDomain, info, srcs[|srcs| - 1]);
    } else {
      RecordListed(mid, cfg, up, srcs[i].value, info);
    }
  }

  /** The `img` loop reads only the mode and the image domain of the
      configuration. */
  lemma {:induction false} ExtractReadsOnlyModeAndImageDomain(st: Store, cfg1: Config, cfg2: Config, up: UrlParser, senderDomain: Option<string>, info: Info, srcs: seq<Option<string>>)
    requires cfg1.uniqueNames == cfg2.uniqueNames && cfg1.imageDomain == cfg2.imageDomain
    ensures ExtractSrcs(st, cfg1, up, senderDomain, info, srcs) == ExtractSrcs(st, cfg2, up, senderDomain, info, srcs)
    decreases |srcs|
  {
    if |srcs| > 0 {
      ExtractReadsOnlyModeAndImageDomain(st, cfg1, cfg2, up, senderDomain, info, srcs[..|srcs| - 1]);
    }
  }
}
