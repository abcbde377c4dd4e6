/** `scan_emails_for_tracking_pixels`: the archive's lines are split into
    blocks, block k (counting from 1) is parsed and processed as message k,
    and the final store is turned into the report. Any `SenderMissing` error
    ends the scan without a report. */
module Scanner {
  import opened Wrappers
  import opened Text
  import opened Domains
  import opened Mbox
  import opened Aggregation
  import opened Messages

  /** The foreign pieces: the MIME parser (`message_from_bytes` with `walk()`
      and HTML extraction) and the URL parser. */
  datatype Oracles = Oracles(parse: Block -> Message, url: UrlParser)

  /** One report entry: the URL, its count and its reference list. */
  datatype Entry = Entry(url: string, count: nat, refs: seq<Info>)

  /** `process_email_data` for block `b` as message number `n`; an earlier
      error is passed on untouched. */
  function ProcessNext(acc: Result<Store, ScanError>, cfg: Config, o: Oracles, b: Block, n: nat): Result<Store, ScanError> {
    match acc
    case Failure(e) => Failure(e)
    case Success(st) => ProcessMessage(st, cfg, o.url, o.parse(b), n)
  }

  /** All blocks in read order, the k-th (from 1) as message number k. */
  function ProcessAll(cfg: Config, o: Oracles, blocks: seq<Block>): (r: Result<Store, ScanError>)
    ensures r.Failure? <==> exists k :: 0 <= k < |blocks| && Raises(cfg, o.parse(blocks[k]))
    ensures r.Failure? ==>
              1 <= r.error.seqNo <= |blocks| && Raises(cfg, o.parse(blocks[r.error.seqNo - 1])) &&
              forall k :: 0 <= k < r.error.seqNo - 1 ==> !Raises(cfg, o.parse(blocks[k]))
    decreases |blocks|
  {
    if |blocks| == 0 then Success(EmptyStore)
    else ProcessNext(ProcessAll(cfg, o, blocks[..|blocks| - 1]), cfg, o, blocks[|blocks| - 1], |blocks|)
  }

  /** The report loop (lines 38-46): one entry per URL, for exactly the URLs
      of the set less those counted more than once in unique mode, each with
      its stored count and list unchanged. */
  function Report(st: Store, unique: bool): (r: set<Entry>)
    ensures forall u :: u in st.urls && !(unique && Count(st, u) > 1) ==> Entry(u, Count(st, u), Refs(st, u)) in r
    ensures forall e :: e in r ==>
              e.url in st.urls && !(unique && e.count > 1) &&
              e.count == Count(st, e.url) && e.refs == Refs(st, e.url)
    ensures forall e1, e2 :: e1 in r && e2 in r && e1.url == e2.url ==> e1 == e2
  {
    set u | u in st.urls && !(unique && Count(st, u) > 1) :: Entry(u, Count(st, u), Refs(st, u))
  }

  function Analyse(cfg: Config, o: Oracles, blocks: seq<Block>): Result<set<Entry>, ScanError> {
    match ProcessAll(cfg, o, blocks)
    case Failure(e) => Failure(e)
    case Success(st) => Success(Report(st, cfg.uniqueNames))
  }

  /** The whole run on an archive given as its lines, split as the loop
      of lines 22-32 does. It fails exactly when some block raises at
      line 61, with the number of the first one. */
  function Scan(lines: seq<Line>, cfg: Config, o: Oracles): (r: Result<set<Entry>, ScanError>)
    ensures r.Failure? <==> exists k :: 0 <= k < |Split(lines)| && Raises(cfg, o.parse(Split(lines)[k]))
    ensures r.Failure? ==>
              1 <= r.error.seqNo <= |Split(lines)| && Raises(cfg, o.parse(Split(lines)[r.error.seqNo - 1])) &&
              forall k :: 0 <= k < r.error.seqNo - 1 ==> !Raises(cfg, o.parse(Split(lines)[k]))
  {
    Analyse(cfg, o, Split(lines))
  }

  /** The run with the corrected splitter, where each envelope line opens
      the block of its own message. */
  function ScanAtEnvelopes(lines: seq<Line>, cfg: Config, o: Oracles): (r: Result<set<Entry>, ScanError>)
    ensures r.Failure? ==> 1 <= r.error.seqNo <= |SplitAtEnvelopes(lines)|
  {
    Analyse(cfg, o, SplitAtEnvelopes(lines))
  }

  /** The streaming loop as written: each block is processed as soon as its
      delimiter is read, the message counter is bumped just before. */
  method ScanFile(lines: seq<Line>, cfg: Config, o: Oracles) returns (r: Result<set<Entry>, ScanError>)
    ensures r == Scan(lines, cfg, o)
  {
    var acc: Result<Store, ScanError> := Success(EmptyStore);
    var pending: Block := [];
    var count: nat := 0;
    ghost var emitted: seq<Block> := [];
    var i := 0;
    while i < |lines|
      invariant 0 <= i <= |lines|
      invariant Run(lines[..i]) == SplitterState(emitted, pending)
      invariant count == |emitted|
      invariant acc == ProcessAll(cfg, o, emitted)
    {
      var line := lines[i];
      pending := pending + [line];
      if IsDelimiter(line) && HasContent(pending) {
        count := count + 1;
        acc := ProcessNext(acc, cfg, o, pending, count);
        emitted := emitted + [pending];
        pending := [];
      }
      assert lines[..i + 1][..i] == lines[..i];
      i := i + 1;
    }
    assert lines[..i] == lines;
    if HasContent(pending) {
      count := count + 1;
      acc := ProcessNext(acc, cfg, o, pending, count);
      emitted := emitted + [pending];
    }
    assert emitted == Split(lines);
    match acc {
      case Failure(e) => r := Failure(e);
      case Success(st) => r := Success(Report(st, cfg.uniqueNames));
    }
  }

  // ----- Numbering and order of references -----

  /** The info each block carries when processed, in read order. */
  ghost function Infos(o: Oracles, blocks: seq<Block>): seq<Info>
    decreases |blocks|
  {
    if |blocks| == 0 then []
    else Infos(o, blocks[..|blocks| - 1]) + [InfoOf(o.parse(blocks[|blocks| - 1]), |blocks|)]
  }

  /** Blocks are numbered 1, 2, 3, ... in read order. */
  lemma {:induction false} InfosNumbered(o: Oracles, blocks: seq<Block>)
    ensures |Infos(o, blocks)| == |blocks|
    ensures forall k :: 0 <= k < |blocks| ==> Infos(o, blocks)[k] == InfoOf(o.parse(blocks[k]), k + 1)
    decreases |blocks|
  {
    if |blocks| > 0 {
      var prev := blocks[..|blocks| - 1];
      InfosNumbered(o, prev);
      forall k | 0 <= k < |blocks| - 1
        ensures Infos(o, blocks)[k] == InfoOf(o.parse(blocks[k]), k + 1)
      {
        assert blocks[k] == prev[k];
      }
    }
  }

  ghost predicate SortedBySeqNo(refs: seq<Info>) {
    forall i, j :: 0 <= i < j < |refs| ==> refs[i].seqNo <= refs[j].seqNo
  }

  /** Every list is in read order, its numbers lie in 1..bound and its
      entries are among `infos`. */
  ghost predicate RefsNumbered(st: Store, bound: nat, infos: seq<Info>) {
    forall u ::
      && SortedBySeqNo(Refs(st, u))
      && (forall i :: 0 <= i < |Refs(st, u)| ==> 1 <= Refs(st, u)[i].seqNo <= bound && Refs(st, u)[i] in infos)
  }

  lemma GrowsKeepsNumbered(st: Store, st': Store, info: Info, infos: seq<Info>)
    requires info.seqNo >= 1
    requires RefsNumbered(st, info.seqNo - 1, infos) && Grows(st, st', info)
    ensures RefsNumbered(st', info.seqNo, infos + [info])
  {
    forall u
      ensures SortedBySeqNo(Refs(st', u))
      ensures forall i :: 0 <= i < |Refs(st', u)| ==>
                1 <= Refs(st', u)[i].seqNo <= info.seqNo && Refs(st', u)[i] in infos + [info]
    {
      var a, b := Refs(st, u), Refs(st', u);
      assert GrowsBy(a, b, info);
      forall i | 0 <= i < |a|
        ensures b[i] == a[i]
      {
        assert b[i] == b[..|a|][i];
      }
    }
  }

  /** After a successful run over `blocks`: the store has its mode's shape,
      and each reference list is in read order and holds only infos of
      processed blocks. */
  lemma {:induction false} ProcessAllFacts(cfg: Config, o: Oracles, blocks: seq<Block>)
    ensures ProcessAll(cfg, o, blocks).Success? ==>
              ModeInv(ProcessAll(cfg, o, blocks).value, cfg) &&
              RefsNumbered(ProcessAll(cfg, o, blocks).value, |blocks|, Infos(o, blocks))
    decreases |blocks|
  {
    if |blocks| == 0 {
      assert forall u :: Refs(EmptyStore, u) == [];
    } else {
      var prev := blocks[..|blocks| - 1];
      ProcessAllFacts(cfg, o, prev);
      var acc := ProcessAll(cfg, o, prev);
      if acc.Success? {
        var msg := o.parse(blocks[|blocks| - 1]);
        MessageKeepsInvAndGrows(acc.value, cfg, o.url, msg, |blocks|);
        var r := ProcessMessage(acc.value, cfg, o.url, msg, |blocks|);
        if r.Success? {
          GrowsKeepsNumbered(acc.value, r.value, InfoOf(msg, |blocks|), Infos(o, prev));
        }
      }
    }
  }

  // ----- The report -----

  /** Unique mode: every reported URL was counted exactly once and carries
      exactly one reference. */
  lemma ReportUniqueMode(st: Store)
    requires UniqueInv(st)
    ensures forall e :: e in Report(st, true) ==> e.count == 1 && |e.refs| == 1
  {
  }

  /** Default mode: every reported count is the length of its list and at
      least 1, and no reported URL is empty or `cid:`. */
  lemma ReportListedMode(st: Store)
    requires ListedInv(st)
    ensures forall e :: e in Report(st, false) ==>
              e.count == |e.refs| && e.count >= 1 && e.url != "" && !IsEmbedded(e.url)
  {
  }

  /** A reference numbered k is exactly the info of the k-th block read. */
  lemma RefsCarryHeaders(st: Store, o: Oracles, blocks: seq<Block>)
    requires RefsNumbered(st, |blocks|, Infos(o, blocks))
    ensures forall u, i :: 0 <= i < |Refs(st, u)| ==>
              Refs(st, u)[i] == InfoOf(o.parse(blocks[Refs(st, u)[i].seqNo - 1]), Refs(st, u)[i].seqNo)
  {
    InfosNumbered(o, blocks);
    var infos := Infos(o, blocks);
    forall u, i | 0 <= i < |Refs(st, u)|
      ensures Refs(st, u)[i] == InfoOf(o.parse(blocks[Refs(st, u)[i].seqNo - 1]), Refs(st, u)[i].seqNo)
    {
      var k :| 0 <= k < |infos| && infos[k] == Refs(st, u)[i];
    }
  }

  /** The end-to-end guarantees of a successful run: the mode's report
      shape; every reference, in read order, carries the number and the
      headers of the block it came from; and each entry's count and list are
      those recomputed from the accepted sources of the blocks. */
  lemma ScanReport(lines: seq<Line>, cfg: Config, o: Oracles)
    ensures Scan(lines, cfg, o).Success? ==>
              var blocks := Split(lines);
              forall e :: e in Scan(lines, cfg, o).value ==>
                && (cfg.uniqueNames ==> e.count == 1 && |e.refs| == 1)
                && (!cfg.uniqueNames ==> e.count == |e.refs| && e.count >= 1 && !IsEmbedded(e.url))
                && SortedBySeqNo(e.refs)
                && (forall i :: 0 <= i < |e.refs| ==>
                      1 <= e.refs[i].seqNo <= |blocks| &&
                      e.refs[i] == InfoOf(o.parse(blocks[e.refs[i].seqNo - 1]), e.refs[i].seqNo))
    ensures Scan(lines, cfg, o).Success? ==>
              forall e :: e in Scan(lines, cfg, o).value ==>
                e.count == RunHits(cfg, o, Split(lines), e.url) && e.refs == RunRefs(cfg, o, Split(lines), e.url)
  {
    AnalyseShape(cfg, o, Split(lines));
    ReportMatchesRun(cfg, o, Split(lines));
  }

  /** The report shape of a successful run over any sequence of blocks. */
  lemma AnalyseShape(cfg: Config, o: Oracles, blocks: seq<Block>)
    ensures Analyse(cfg, o, blocks).Success? ==>
              forall e :: e in Analyse(cfg, o, blocks).value ==>
                && (cfg.uniqueNames ==> e.count == 1 && |e.refs| == 1)
                && (!cfg.uniqueNames ==> e.count == |e.refs| && e.count >= 1 && !IsEmbedded(e.url))
                && SortedBySeqNo(e.refs)
                && (forall i :: 0 <= i < |e.refs| ==>
                      1 <= e.refs[i].seqNo <= |blocks| &&
                      e.refs[i] == InfoOf(o.parse(blocks[e.refs[i].seqNo - 1]), e.refs[i].seqNo))
  {
    ProcessAllFacts(cfg, o, blocks);
    var acc := ProcessAll(cfg, o, blocks);
    if acc.Success? {
      ReportShape(acc.value, cfg, o, blocks);
    }
  }

  lemma ReportShape(st: Store, cfg: Config, o: Oracles, blocks: seq<Block>)
    requires ModeInv(st, cfg) && RefsNumbered(st, |blocks|, Infos(o, blocks))
    ensures forall e :: e in Report(st, cfg.uniqueNames) ==>
              && (cfg.uniqueNames ==> e.count == 1 && |e.refs| == 1)
              && (!cfg.uniqueNames ==> e.count == |e.refs| && e.count >= 1 && !IsEmbedded(e.url))
              && SortedBySeqNo(e.refs)
              && (forall i :: 0 <= i < |e.refs| ==>
                    1 <= e.refs[i].seqNo <= |blocks| &&
                    e.refs[i] == InfoOf(o.parse(blocks[e.refs[i].seqNo - 1]), e.refs[i].seqNo))
  {
    RefsCarryHeaders(st, o, blocks);
    if cfg.uniqueNames {
      ReportUniqueMode(st);
    } else {
      ReportListedMode(st);
    }
  }

  /** After a successful run every entry's count and list are the ones
      recomputed from the accepted sources of the blocks. */
  lemma ReportMatchesRun(cfg: Config, o: Oracles, blocks: seq<Block>)
    ensures Analyse(cfg, o, blocks).Success? ==>
              forall e :: e in Analyse(cfg, o, blocks).value ==>
                e.count == RunHits(cfg, o, blocks, e.url) && e.refs == RunRefs(cfg, o, blocks, e.url)
  {
    var acc := ProcessAll(cfg, o, blocks);
    if acc.Success? {
      forall e | e in Report(acc.value, cfg.uniqueNames)
        ensures e.count == RunHits(cfg, o, blocks, e.url) && e.refs == RunRefs(cfg, o, blocks, e.url)
      {
        ProcessAllCounts(cfg, o, blocks, e.url);
        ProcessAllRefs(cfg, o, blocks, e.url);
      }
    }
  }

  // ----- What the report counts -----

  /** The reference count of key `u` from scratch: the accepted srcs stored
      under `u` in the scanned parts of every block, summed in read order. */
  ghost function RunHits(cfg: Config, o: Oracles, blocks: seq<Block>, u: string): nat
    decreases |blocks|
  {
    if |blocks| == 0 then 0
    else RunHits(cfg, o, blocks[..|blocks| - 1], u) + MessageHits(cfg, o.url, o.parse(blocks[|blocks| - 1]), u)
  }

  lemma {:induction false} ProcessAllCounts(cfg: Config, o: Oracles, blocks: seq<Block>, u: string)
    ensures ProcessAll(cfg, o, blocks).Success? ==> Count(ProcessAll(cfg, o, blocks).value, u) == RunHits(cfg, o, blocks, u)
    decreases |blocks|
  {
    if |blocks| > 0 {
      var prev := blocks[..|blocks| - 1];
      ProcessAllCounts(cfg, o, prev, u);
      var acc := ProcessAll(cfg, o, prev);
      if acc.Success? {
        MessageCounts(acc.value, cfg, o.url, o.parse(blocks[|blocks| - 1]), |blocks|, u);
      }
    }
  }

  /** After a successful run, a key is reported exactly when its accepted
      srcs over the whole archive number at least one (default mode) or
      exactly one (unique mode), and its reported count is that number. */
  lemma AnalyseReportsHits(cfg: Config, o: Oracles, blocks: seq<Block>, u: string)
    ensures Analyse(cfg, o, blocks).Success? ==>
              (forall e :: e in Analyse(cfg, o, blocks).value && e.url == u ==> e.count == RunHits(cfg, o, blocks, u))
    ensures Analyse(cfg, o, blocks).Success? ==>
              ((exists e :: e in Analyse(cfg, o, blocks).value && e.url == u) <==>
               if cfg.uniqueNames then RunHits(cfg, o, blocks, u) == 1 else RunHits(cfg, o, blocks, u) >= 1)
  {
    ProcessAllFacts(cfg, o, blocks);
    ProcessAllCounts(cfg, o, blocks, u);
    var acc := ProcessAll(cfg, o, blocks);
    if acc.Success? {
      var st := acc.value;
      assert u in st.urls <==> Count(st, u) >= 1;
      if u in st.urls && !(cfg.uniqueNames && Count(st, u) > 1) {
        assert Entry(u, Count(st, u), Refs(st, u)) in Report(st, cfg.uniqueNames);
      }
    }
  }

  lemma {:induction false} ProcessAllRecordsAccepted(cfg: Config, o: Oracles, blocks: seq<Block>, k: nat, i: nat, j: nat)
    requires !cfg.uniqueNames && k < |blocks|
    requires i < |o.parse(blocks[k]).parts| && Scanned(cfg, o.parse(blocks[k]).from, o.parse(blocks[k]).parts[i])
    requires j < |o.parse(blocks[k]).parts[i].srcs|
    requires Accepts(cfg, o.url, DomainOf(o.parse(blocks[k]).from), o.parse(blocks[k]).parts[i].srcs[j])
    ensures ProcessAll(cfg, o, blocks).Success? ==>
              o.parse(blocks[k]).parts[i].srcs[j].value in ProcessAll(cfg, o, blocks).value.urls &&
              InfoOf(o.parse(blocks[k]), k + 1) in Refs(ProcessAll(cfg, o, blocks).value, o.parse(blocks[k]).parts[i].srcs[j].value)
    decreases |blocks|
  {
    var msg := o.parse(blocks[k]);
    var url := msg.parts[i].srcs[j].value;
    var prev := blocks[..|blocks| - 1];
    var acc := ProcessAll(cfg, o, prev);
    if acc.Success? {
      if k == |blocks| - 1 {
        MessageRecordsAccepted(acc.value, cfg, o.url, msg, k + 1, i, j);
      } else {
        assert prev[k] == blocks[k];
        ProcessAllRecordsAccepted(cfg, o, prev, k, i, j);
        ProcessAllFacts(cfg, o, prev);
        var last := o.parse(blocks[|blocks| - 1]);
        MessageKeepsInvAndGrows(acc.value, cfg, o.url, last, |blocks|);
        var r := ProcessMessage(acc.value, cfg, o.url, last, |blocks|);
        if r.Success? {
          GrowsByKeeps(Refs(acc.value, url), Refs(r.value, url), InfoOf(last, |blocks|), InfoOf(msg, k + 1));
        }
      }
    }
  }

  /** Default mode: every src accepted in a scanned part of block k (from 0)
      is in the report of a successful run, and its reference list holds the
      info of that block, numbered k + 1. */
  lemma AcceptedSourceReported(cfg: Config, o: Oracles, blocks: seq<Block>, k: nat, i: nat, j: nat)
    requires !cfg.uniqueNames && k < |blocks|
    requires i < |o.parse(blocks[k]).parts| && Scanned(cfg, o.parse(blocks[k]).from, o.parse(blocks[k]).parts[i])
    requires j < |o.parse(blocks[k]).parts[i].srcs|
    requires Accepts(cfg, o.url, DomainOf(o.parse(blocks[k]).from), o.parse(blocks[k]).parts[i].srcs[j])
    ensures Analyse(cfg, o, blocks).Success? ==>
              exists e :: e in Analyse(cfg, o, blocks).value &&
                e.url == o.parse(blocks[k]).parts[i].srcs[j].value && InfoOf(o.parse(blocks[k]), k + 1) in e.refs
  {
    ProcessAllRecordsAccepted(cfg, o, blocks, k, i, j);
    var acc := ProcessAll(cfg, o, blocks);
    if acc.Success? {
      var st := acc.value;
      var url := o.parse(blocks[k]).parts[i].srcs[j].value;
      assert Entry(url, Count(st, url), Refs(st, url)) in Report(st, false);
    }
  }

  // ----- When a run fails -----

  /** Without a sender filter a run never fails. */
  lemma NoFilterNeverFails(cfg: Config, o: Oracles, blocks: seq<Block>)
    requires !FilterActive(cfg)
    ensures ProcessAll(cfg, o, blocks).Success?
  {
  }

  // ----- What the reference lists hold -----

  /** Each key's reference list from scratch. Default mode: block k's info,
      numbered k, once per source of that block accepted under the key, in
      read order. Unique mode: the info of the first block that accepts the
      key, or nothing. */
  ghost function RunRefs(cfg: Config, o: Oracles, blocks: seq<Block>, u: string): seq<Info>
    decreases |blocks|
  {
    if |blocks| == 0 then []
    else
      var prev := RunRefs(cfg, o, blocks[..|blocks| - 1], u);
      var msg := o.parse(blocks[|blocks| - 1]);
      var hits := MessageHits(cfg, o.url, msg, u);
      if !cfg.uniqueNames then prev + Repeat(InfoOf(msg, |blocks|), hits)
      else if prev == [] && hits > 0 then [InfoOf(msg, |blocks|)]
      else prev
  }

  lemma {:induction false} ProcessAllRefs(cfg: Config, o: Oracles, blocks: seq<Block>, u: string)
    ensures ProcessAll(cfg, o, blocks).Success? ==> Refs(ProcessAll(cfg, o, blocks).value, u) == RunRefs(cfg, o, blocks, u)
    decreases |blocks|
  {
    if |blocks| > 0 {
      var prev := blocks[..|blocks| - 1];
      var msg := o.parse(blocks[|blocks| - 1]);
      ProcessAllRefs(cfg, o, prev, u);
      ProcessAllFacts(cfg, o, prev);
      var acc := ProcessAll(cfg, o, prev);
      if acc.Success? {
        if cfg.uniqueNames {
          assert Count(acc.value, u) == 0 <==> Refs(acc.value, u) == [];
          MessageRefsUnique(acc.value, cfg, o.url, msg, |blocks|, u);
        } else {
          MessageRefsListed(acc.value, cfg, o.url, msg, |blocks|, u);
        }
      }
    }
  }

  /** After a successful run every reported key's list is exactly `RunRefs`:
      no reference to a block that did not accept the key, one copy per
      accepting source in default mode, and the first accepting block in
      unique mode. */
  lemma AnalyseReportsRefs(cfg: Config, o: Oracles, blocks: seq<Block>, u: string)
    ensures Analyse(cfg, o, blocks).Success? ==>
              forall e :: e in Analyse(cfg, o, blocks).value && e.url == u ==> e.refs == RunRefs(cfg, o, blocks, u)
  {
    ProcessAllRefs(cfg, o, blocks, u);
  }
}
