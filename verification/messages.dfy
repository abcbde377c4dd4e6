/** `process_email`: one parsed message is walked part by part; only parts
    whose content type starts with "text/html" go on to the `img` loop, and
    only when no sender filter is set or the raw `From` value contains it.
    MIME parsing, `walk()` and HTML parsing are not modelled: a message
    arrives as its headers and its parts in walk order, each HTML part as the
    `src` values of its `img` tags. */
module Messages {
  import opened Wrappers
  import opened Text
  import opened Domains
  import opened Aggregation

  /** One part in `walk()` order: its content type and the `src` attribute of
      each `img` tag, in document order (`None` for a tag without one). */
  datatype Part = Part(contentType: string, srcs: seq<Option<string>>)

  /** The `From` and `Date` headers (`None` when absent) and the parts. */
  datatype Message = Message(from: Option<string>, date: Option<string>, parts: seq<Part>)

  /** The `TypeError` raised by `domain in message['From']` when the filter is
      set and the header is absent; it ends the whole scan. */
  datatype ScanError = SenderMissing(seqNo: nat)

  predicate IsHtml(p: Part) {
    StartsWith(p.contentType, "text/html")
  }

  /** Python truthiness of the `domain` argument. */
  predicate FilterActive(cfg: Config) {
    cfg.domainFilter.Some? && cfg.domainFilter.value != ""
  }

  function InfoOf(msg: Message, n: nat): Info {
    Info(n, msg.from, msg.date)
  }

  /** One iteration of the `walk()` loop, for a message with header `from`
      whose references carry `info`. */
  function ProcessPart(st: Store, cfg: Config, up: UrlParser, from: Option<string>, info: Info, p: Part): (r: Result<Store, ScanError>)
    ensures r.Failure? <==> IsHtml(p) && FilterActive(cfg) && from.None?
    ensures r.Failure? ==> r.error == SenderMissing(info.seqNo)
    ensures r.Success? ==> st.urls <= r.value.urls
  {
    if !IsHtml(p) then Success(st)
    else if !FilterActive(cfg) then Success(ExtractSrcs(st, cfg, up, DomainOf(from), info, p.srcs))
    else
      match from
      case None => Failure(SenderMissing(info.seqNo))
      case Some(f) =>
        if Contains(f, cfg.domainFilter.value) then Success(ExtractSrcs(st, cfg, up, DomainOf(from), info, p.srcs))
        else Success(st)
  }

  function ProcessParts(st: Store, cfg: Config, up: UrlParser, from: Option<string>, info: Info, parts: seq<Part>): (r: Result<Store, ScanError>)
    ensures r.Failure? <==> FilterActive(cfg) && from.None? && exists i :: 0 <= i < |parts| && IsHtml(parts[i])
    ensures r.Failure? ==> r.error == SenderMissing(info.seqNo)
    ensures r.Success? ==> st.urls <= r.value.urls
    decreases |parts|
  {
    if |parts| == 0 then Success(st)
    else
      match ProcessParts(st, cfg, up, from, info, parts[..|parts| - 1])
      case Failure(e) => Failure(e)
      case Success(mid) => ProcessPart(mid, cfg, up, from, info, parts[|parts| - 1])
  }

  /** Message number `n` (counting from 1 in read order). */
  function ProcessMessage(st: Store, cfg: Config, up: UrlParser, msg: Message, n: nat): (r: Result<Store, ScanError>)
    ensures r.Failure? <==> Raises(cfg, msg)
    ensures r.Failure? ==> r.error == SenderMissing(n)
    ensures r.Success? ==> st.urls <= r.value.urls
  {
    ProcessParts(st, cfg, up, msg.from, InfoOf(msg, n), msg.parts)
  }

  /** The HTML parts, in order. */
  ghost function HtmlOnly(parts: seq<Part>): seq<Part>
    decreases |parts|
  {
    if |parts| == 0 then []
    else HtmlOnly(parts[..|parts| - 1]) + (if IsHtml(parts[|parts| - 1]) then [parts[|parts| - 1]] else [])
  }

  /** Whether the `img` loop runs over part `p` of a message whose header is
      `from`: an HTML part, with no filter set or a `From` containing it. */
  ghost predicate Scanned(cfg: Config, from: Option<string>, p: Part) {
    IsHtml(p) && (!FilterActive(cfg) || (from.Some? && Contains(from.value, cfg.domainFilter.value)))
  }

  /** How many `src` values of the scanned parts are accepted and stored
      under key `u`: the reference count a message contributes. */
  ghost function PartsHits(cfg: Config, up: UrlParser, from: Option<string>, parts: seq<Part>, u: string): nat
    decreases |parts|
  {
    if |parts| == 0 then 0
    else
      var p := parts[|parts| - 1];
      PartsHits(cfg, up, from, parts[..|parts| - 1], u)
      + (if Scanned(cfg, from, p) then Hits(cfg, up, DomainOf(from), p.srcs, u) else 0)
  }

  /** The message raises the `TypeError` of line 61: a sender filter is set,
      the `From` header is absent and some part is HTML. */
  ghost predicate Raises(cfg: Config, msg: Message) {
    FilterActive(cfg) && msg.from.None? && exists i :: 0 <= i < |msg.parts| && IsHtml(msg.parts[i])
  }

  ghost function MessageHits(cfg: Config, up: UrlParser, msg: Message, u: string): nat {
    PartsHits(cfg, up, msg.from, msg.parts, u)
  }

  // ----- Lemmas -----

  lemma {:induction false} PartsOnlyHtmlContribute(st: Store, cfg: Config, up: UrlParser, msg: Message, n: nat, parts: seq<Part>)
    ensures ProcessParts(st, cfg, up, msg.from, InfoOf(msg, n), parts) == ProcessParts(st, cfg, up, msg.from, InfoOf(msg, n), HtmlOnly(parts))
    decreases |parts|
  {
    if |parts| > 0 {
      var prev := parts[..|parts| - 1];
      var p := parts[|parts| - 1];
      PartsOnlyHtmlContribute(st, cfg, up, msg, n, prev);
      if IsHtml(p) {
        var h := HtmlOnly(prev) + [p];
        assert h[..|h| - 1] == HtmlOnly(prev);
      } else {
        assert HtmlOnly(parts) == HtmlOnly(prev);
      }
    }
  }

  /** Dropping every non-HTML part of a message changes nothing. */
  lemma OnlyHtmlContributes(st: Store, cfg: Config, up: UrlParser, msg: Message, n: nat)
    ensures ProcessMessage(st, cfg, up, msg, n) == ProcessMessage(st, cfg, up, msg.(parts := HtmlOnly(msg.parts)), n)
  {
    PartsOnlyHtmlContribute(st, cfg, up, msg, n, msg.parts);
  }

  lemma {:induction false} PartsFilterMismatch(st: Store, cfg: Config, up: UrlParser, msg: Message, n: nat, parts: seq<Part>)
    requires FilterActive(cfg) && msg.from.Some? && !Contains(msg.from.value, cfg.domainFilter.value)
    ensures ProcessParts(st, cfg, up, msg.from, InfoOf(msg, n), parts) == Success(st)
    decreases |parts|
  {
    if |parts| > 0 {
      PartsFilterMismatch(st, cfg, up, msg, n, parts[..|parts| - 1]);
    }
  }

  /** With a sender filter set, a message whose `From` does not contain it
      leaves the store unchanged. */
  lemma FilterMismatchLeavesStore(st: Store, cfg: Config, up: UrlParser, msg: Message, n: nat)
    requires FilterActive(cfg) && msg.from.Some? && !Contains(msg.from.value, cfg.domainFilter.value)
    ensures ProcessMessage(st, cfg, up, msg, n) == Success(st)
  {
    PartsFilterMismatch(st, cfg, up, msg, n, msg.parts);
  }

  lemma {:induction false} PartsFilterMatch(st: Store, cfg: Config, up: UrlParser, msg: Message, n: nat, parts: seq<Part>)
    requires msg.from.Some? && (!FilterActive(cfg) || Contains(msg.from.value, cfg.domainFilter.value))
    ensures ProcessParts(st, cfg, up, msg.from, InfoOf(msg, n), parts) == ProcessParts(st, cfg.(domainFilter := None), up, msg.from, InfoOf(msg, n), parts)
    decreases |parts|
  {
    if |parts| > 0 {
      var prev := parts[..|parts| - 1];
      PartsFilterMatch(st, cfg, up, msg, n, prev);
      var r := ProcessParts(st, cfg, up, msg.from, InfoOf(msg, n), prev);
      if r.Success? {
        ExtractReadsOnlyModeAndImageDomain(r.value, cfg, cfg.(domainFilter := None), up, DomainOf(msg.from), InfoOf(msg, n), parts[|parts| - 1].srcs);
      }
    }
  }

  /** A message whose `From` contains the filter is analysed exactly as if no
      filter were set. */
  lemma FilterMatchIsUnfiltered(st: Store, cfg: Config, up: UrlParser, msg: Message, n: nat)
    requires msg.from.Some? && (!FilterActive(cfg) || Contains(msg.from.value, cfg.domainFilter.value))
    ensures ProcessMessage(st, cfg, up, msg, n) == ProcessMessage(st, cfg.(domainFilter := None), up, msg, n)
  {
    PartsFilterMatch(st, cfg, up, msg, n, msg.parts);
  }

  lemma {:induction false} PartsMissingSender(st: Store, cfg: Config, up: UrlParser, msg: Message, n: nat, parts: seq<Part>)
    requires FilterActive(cfg) && msg.from == None
    ensures ProcessParts(st, cfg, up, msg.from, InfoOf(msg, n), parts) ==
            if exists i :: 0 <= i < |parts| && IsHtml(parts[i]) then Failure(SenderMissing(n)) else Success(st)
    decreases |parts|
  {
    if |parts| > 0 {
      var prev := parts[..|parts| - 1];
      PartsMissingSender(st, cfg, up, msg, n, prev);
      if exists i :: 0 <= i < |prev| && IsHtml(prev[i]) {
        var i :| 0 <= i < |prev| && IsHtml(prev[i]);
        assert IsHtml(parts[i]);
      } else if exists i :: 0 <= i < |parts| && IsHtml(parts[i]) {
        var i :| 0 <= i < |parts| && IsHtml(parts[i]);
      }
    }
  }

  /** With a sender filter set and no `From` header, the first HTML part
      raises; a message without HTML parts passes untouched. */
  lemma MissingSenderUnderFilter(st: Store, cfg: Config, up: UrlParser, msg: Message, n: nat)
    requires FilterActive(cfg) && msg.from == None
    ensures ProcessMessage(st, cfg, up, msg, n) ==
            if exists i :: 0 <= i < |msg.parts| && IsHtml(msg.parts[i]) then Failure(SenderMissing(n)) else Success(st)
  {
    PartsMissingSender(st, cfg, up, msg, n, msg.parts);
  }

  /** A successful message keeps the mode's store shape and only adds to the
      store: URLs to the set, counts, and its own info at the end of lists. */
  lemma {:induction false} PartsKeepInvAndGrow(st: Store, cfg: Config, up: UrlParser, msg: Message, n: nat, parts: seq<Part>)
    requires ModeInv(st, cfg)
    ensures ProcessParts(st, cfg, up, msg.from, InfoOf(msg, n), parts).Success? ==>
              ModeInv(ProcessParts(st, cfg, up, msg.from, InfoOf(msg, n), parts).value, cfg) &&
              Grows(st, ProcessParts(st, cfg, up, msg.from, InfoOf(msg, n), parts).value, InfoOf(msg, n))
    decreases |parts|
  {
    var info := InfoOf(msg, n);
    if |parts| == 0 {
      GrowsReflexive(st, info);
    } else {
      var prev := parts[..|parts| - 1];
      PartsKeepInvAndGrow(st, cfg, up, msg, n, prev);
      var r := ProcessParts(st, cfg, up, msg.from, InfoOf(msg, n), prev);
      if r.Success? {
        var mid := r.value;
        var p := parts[|parts| - 1];
        ExtractKeepsInv(mid, cfg, up, DomainOf(msg.from), info, p.srcs);
        ExtractGrows(mid, cfg, up, DomainOf(msg.from), info, p.srcs);
        GrowsReflexive(mid, info);
        var r' := ProcessPart(mid, cfg, up, msg.from, InfoOf(msg, n), p);
        if r'.Success? {
          GrowsTransitive(st, mid, r'.value, info);
        }
      }
    }
  }

  lemma MessageKeepsInvAndGrows(st: Store, cfg: Config, up: UrlParser, msg: Message, n: nat)
    requires ModeInv(st, cfg)
    ensures ProcessMessage(st, cfg, up, msg, n).Success? ==>
              ModeInv(ProcessMessage(st, cfg, up, msg, n).value, cfg) &&
              Grows(st, ProcessMessage(st, cfg, up, msg, n).value, InfoOf(msg, n))
  {
    PartsKeepInvAndGrow(st, cfg, up, msg, n, msg.parts);
  }

  lemma {:induction false} PartsWithoutSender(st: Store, cfg: Config, up: UrlParser, msg: Message, n: nat, parts: seq<Part>, i: nat, j: nat)
    requires !FilterActive(cfg) && !cfg.uniqueNames && msg.from == None
    requires i < |parts| && IsHtml(parts[i]) && j < |parts[i].srcs| && IsCandidate(parts[i].srcs[j])
    ensures ProcessParts(st, cfg, up, msg.from, InfoOf(msg, n), parts).Success?
    ensures parts[i].srcs[j].value in ProcessParts(st, cfg, up, msg.from, InfoOf(msg, n), parts).value.urls
    decreases |parts|
  {
    var info := InfoOf(msg, n);
    var prev := parts[..|parts| - 1];
    var p := parts[|parts| - 1];
    if i < |parts| - 1 {
      PartsWithoutSender(st, cfg, up, msg, n, prev, i, j);
      var mid := ProcessParts(st, cfg, up, msg.from, InfoOf(msg, n), prev).value;
      ExtractGrows(mid, cfg, up, None, info, p.srcs);
      GrowsReflexive(mid, info);
    } else {
      PartsSucceedWithoutFilter(st, cfg, up, msg, n, prev);
      var mid := ProcessParts(st, cfg, up, msg.from, InfoOf(msg, n), prev).value;
      ExtractStoresAccepted(mid, cfg, up, None, info, p.srcs, j);
    }
  }

  lemma {:induction false} PartsSucceedWithoutFilter(st: Store, cfg: Config, up: UrlParser, msg: Message, n: nat, parts: seq<Part>)
    requires !FilterActive(cfg)
    ensures ProcessParts(st, cfg, up, msg.from, InfoOf(msg, n), parts).Success?
    decreases |parts|
  {
    if |parts| > 0 {
      PartsSucceedWithoutFilter(st, cfg, up, msg, n, parts[..|parts| - 1]);
    }
  }

  /** Without a sender filter, a message with no `From` header is still
      analysed: its sender domain is `None`, so in default mode every
      present, non-empty, non-`cid:` src of its HTML parts is recorded. */
  lemma MessageWithoutSenderIsScanned(st: Store, cfg: Config, up: UrlParser, msg: Message, n: nat, i: nat, j: nat)
    requires !FilterActive(cfg) && !cfg.uniqueNames && msg.from == None
    requires i < |msg.parts| && IsHtml(msg.parts[i]) && j < |msg.parts[i].srcs| && IsCandidate(msg.parts[i].srcs[j])
    ensures ProcessMessage(st, cfg, up, msg, n).Success?
    ensures msg.parts[i].srcs[j].value in ProcessMessage(st, cfg, up, msg, n).value.urls
  {
    PartsWithoutSender(st, cfg, up, msg, n, msg.parts, i, j);
  }

  lemma {:induction false} PartsCount(st: Store, cfg: Config, up: UrlParser, from: Option<string>, info: Info, parts: seq<Part>, u: string)
    ensures ProcessParts(st, cfg, up, from, info, parts).Success? ==>
              Count(ProcessParts(st, cfg, up, from, info, parts).value, u) == Count(st, u) + PartsHits(cfg, up, from, parts, u)
    decreases |parts|
  {
    if |parts| > 0 {
      var prev := parts[..|parts| - 1];
      var p := parts[|parts| - 1];
      PartsCount(st, cfg, up, from, info, prev, u);
      var r := ProcessParts(st, cfg, up, from, info, prev);
      if r.Success? && Scanned(cfg, from, p) {
        ExtractCounts(r.value, cfg, up, DomainOf(from), info, p.srcs, u);
      }
    }
  }

  /** A successful message raises each key's count by exactly the number of
      accepted srcs its scanned parts store under that key. */
  lemma MessageCounts(st: Store, cfg: Config, up: UrlParser, msg: Message, n: nat, u: string)
    ensures ProcessMessage(st, cfg, up, msg, n).Success? ==>
              Count(ProcessMessage(st, cfg, up, msg, n).value, u) == Count(st, u) + MessageHits(cfg, up, msg, u)
  {
    PartsCount(st, cfg, up, msg.from, InfoOf(msg, n), msg.parts, u);
  }

  lemma {:induction false} PartsRecordAccepted(st: Store, cfg: Config, up: UrlParser, from: Option<string>, info: Info, parts: seq<Part>, i: nat, j: nat)
    requires !cfg.uniqueNames
    requires i < |parts| && Scanned(cfg, from, parts[i])
    requires j < |parts[i].srcs| && Accepts(cfg, up, DomainOf(from), parts[i].srcs[j])
    ensures ProcessParts(st, cfg, up, from, info, parts).Success? ==>
              parts[i].srcs[j].value in ProcessParts(st, cfg, up, from, info, parts).value.urls &&
              info in Refs(ProcessParts(st, cfg, up, from, info, parts).value, parts[i].srcs[j].value)
    decreases |parts|
  {
    var prev := parts[..|parts| - 1];
    var p := parts[|parts| - 1];
    var url := parts[i].srcs[j].value;
    var r := ProcessParts(st, cfg, up, from, info, prev);
    if r.Success? {
      var mid := r.value;
      if i < |parts| - 1 {
        PartsRecordAccepted(st, cfg, up, from, info, prev, i, j);
        if Scanned(cfg, from, p) {
          ExtractGrows(mid, cfg, up, DomainOf(from), info, p.srcs);
          GrowsByKeeps(Refs(mid, url), Refs(ExtractSrcs(mid, cfg, up, DomainOf(from), info, p.srcs), url), info, info);
        }
      } else {
        HitsPositive(cfg, up, DomainOf(from), p.srcs, j);
        ExtractRefsListed(mid, cfg, up, DomainOf(from), info, p.srcs, url);
        var h := Hits(cfg, up, DomainOf(from), p.srcs, url);
        assert Repeat(info, h)[0] == info;
        assert (Refs(mid, url) + Repeat(info, h))[|Refs(mid, url)|] == info;
      }
    }
  }

  /** Default mode: every src that a scanned part of the message accepts is
      in the set afterwards, with the message's info in its list. */
  lemma MessageRecordsAccepted(st: Store, cfg: Config, up: UrlParser, msg: Message, n: nat, i: nat, j: nat)
    requires !cfg.uniqueNames
    requires i < |msg.parts| && Scanned(cfg, msg.from, msg.parts[i])
    requires j < |msg.parts[i].srcs| && Accepts(cfg, up, DomainOf(msg.from), msg.parts[i].srcs[j])
    ensures ProcessMessage(st, cfg, up, msg, n).Success?
    ensures msg.parts[i].srcs[j].value in ProcessMessage(st, cfg, up, msg, n).value.urls
    ensures InfoOf(msg, n) in Refs(ProcessMessage(st, cfg, up, msg, n).value, msg.parts[i].srcs[j].value)
  {
    PartsRecordAccepted(st, cfg, up, msg.from, InfoOf(msg, n), msg.parts, i, j);
  }

  lemma {:induction false} PartsIgnoreUnreadOptions(st: Store, cfg: Config, up: UrlParser, msg: Message, n: nat, parts: seq<Part>, e: bool, m: int)
    ensures ProcessParts(st, cfg, up, msg.from, InfoOf(msg, n), parts) ==
            ProcessParts(st, cfg.(ignoreEmbedded := e, maxUniqueNames := m), up, msg.from, InfoOf(msg, n), parts)
    decreases |parts|
  {
    if |parts| > 0 {
      var prev := parts[..|parts| - 1];
      PartsIgnoreUnreadOptions(st, cfg, up, msg, n, prev, e, m);
      var r := ProcessParts(st, cfg, up, msg.from, InfoOf(msg, n), prev);
      if r.Success? {
        ExtractReadsOnlyModeAndImageDomain(r.value, cfg, cfg.(ignoreEmbedded := e, maxUniqueNames := m), up, DomainOf(msg.from), InfoOf(msg, n), parts[|parts| - 1].srcs);
      }
    }
  }

  /** `ignore_embedded` and `max_unique_names` have no effect on a message. */
  lemma MessageIgnoresUnreadOptions(st: Store, cfg: Config, up: UrlParser, msg: Message, n: nat, e: bool, m: int)
    ensures ProcessMessage(st, cfg, up, msg, n) ==
            ProcessMessage(st, cfg.(ignoreEmbedded := e, maxUniqueNames := m), up, msg, n)
  {
    PartsIgnoreUnreadOptions(st, cfg, up, msg, n, msg.parts, e, m);
  }

  lemma {:induction false} PartsWithoutHtml(st: Store, cfg: Config, up: UrlParser, from: Option<string>, info: Info, parts: seq<Part>)
    requires forall i :: 0 <= i < |parts| ==> !IsHtml(parts[i])
    ensures ProcessParts(st, cfg, up, from, info, parts) == Success(st)
    decreases |parts|
  {
    if |parts| > 0 {
      PartsWithoutHtml(st, cfg, up, from, info, parts[..|parts| - 1]);
    }
  }

  /** A message without any HTML part leaves the store as it is, whatever
      its headers and the configuration. */
  lemma NoHtmlLeavesStore(st: Store, cfg: Config, up: UrlParser, msg: Message, n: nat)
    requires forall i :: 0 <= i < |msg.parts| ==> !IsHtml(msg.parts[i])
    ensures ProcessMessage(st, cfg, up, msg, n) == Success(st)
  {
    PartsWithoutHtml(st, cfg, up, msg.from, InfoOf(msg, n), msg.parts);
  }

  lemma {:induction false} PartsRefsListed(st: Store, cfg: Config, up: UrlParser, from: Option<string>, info: Info, parts: seq<Part>, u: string)
    requires !cfg.uniqueNames
    ensures ProcessParts(st, cfg, up, from, info, parts).Success? ==>
              Refs(ProcessParts(st, cfg, up, from, info, parts).value, u) == Refs(st, u) + Repeat(info, PartsHits(cfg, up, from, parts, u))
    decreases |parts|
  {
    if |parts| > 0 {
      var prev := parts[..|parts| - 1];
      var p := parts[|parts| - 1];
      PartsRefsListed(st, cfg, up, from, info, prev, u);
      var r := ProcessParts(st, cfg, up, from, info, prev);
      if r.Success? {
        var n := PartsHits(cfg, up, from, prev, u);
        if Scanned(cfg, from, p) {
          var h := Hits(cfg, up, DomainOf(from), p.srcs, u);
          ExtractRefsListed(r.value, cfg, up, DomainOf(from), info, p.srcs, u);
          RepeatAppend(info, n, h);
        } else {
          assert Repeat(info, n) + Repeat(info, 0) == Repeat(info, n);
        }
      }
    }
  }

  /** Default mode: a successful message appends to each URL's list one copy
      of its own info per source its scanned parts accept as that URL. */
  lemma MessageRefsListed(st: Store, cfg: Config, up: UrlParser, msg: Message, n: nat, u: string)
    requires !cfg.uniqueNames
    ensures ProcessMessage(st, cfg, up, msg, n).Success? ==>
              Refs(ProcessMessage(st, cfg, up, msg, n).value, u) == Refs(st, u) + Repeat(InfoOf(msg, n), MessageHits(cfg, up, msg, u))
  {
    PartsRefsListed(st, cfg, up, msg.from, InfoOf(msg, n), msg.parts, u);
  }

  lemma {:induction false} PartsRefsUnique(st: Store, cfg: Config, up: UrlParser, msg: Message, n: nat, parts: seq<Part>, u: string)
    requires cfg.uniqueNames && UniqueInv(st)
    ensures ProcessParts(st, cfg, up, msg.from, InfoOf(msg, n), parts).Success? ==>
              Refs(ProcessParts(st, cfg, up, msg.from, InfoOf(msg, n), parts).value, u) ==
              (if Count(st, u) == 0 && PartsHits(cfg, up, msg.from, parts, u) > 0 then [InfoOf(msg, n)] else Refs(st, u))
    decreases |parts|
  {
    if |parts| > 0 {
      var info := InfoOf(msg, n);
      var prev := parts[..|parts| - 1];
      var p := parts[|parts| - 1];
      PartsRefsUnique(st, cfg, up, msg, n, prev, u);
      var r := ProcessParts(st, cfg, up, msg.from, info, prev);
      if r.Success? && Scanned(cfg, msg.from, p) {
        PartsCount(st, cfg, up, msg.from, info, prev, u);
        PartsKeepInvAndGrow(st, cfg, up, msg, n, prev);
        ExtractRefsUnique(r.value, cfg, up, DomainOf(msg.from), info, p.srcs, u);
      }
    }
  }

  /** Unique mode: a successful message sets a key's list to its own info
      when the key was never counted before and the message accepts it;
      every other list stays as it was. */
  lemma MessageRefsUnique(st: Store, cfg: Config, up: UrlParser, msg: Message, n: nat, u: string)
    requires cfg.uniqueNames && UniqueInv(st)
    ensures ProcessMessage(st, cfg, up, msg, n).Success? ==>
              Refs(ProcessMessage(st, cfg, up, msg, n).value, u) ==
              (if Count(st, u) == 0 && MessageHits(cfg, up, msg, u) > 0 then [InfoOf(msg, n)] else Refs(st, u))
  {
    PartsRefsUnique(st, cfg, up, msg, n, msg.parts, u);
  }
}
