/** Concrete runs: a single pixel seen once, and the same pixel seen in two
    messages from one sender, in both modes. The MIME and URL parsers stay
    abstract; only what they return for these inputs is fixed. The sender
    and the image URL are left general: any sender address and any
    non-empty, non-`cid:` URL whose host is not the sender's domain (for
    example "a@example.com" and "http://tracker.test/p.gif"). */
module Scenarios {
  import opened Wrappers
  import opened Text
  import opened Domains
  import opened Mbox
  import opened Aggregation
  import opened Messages
  import opened Scanner

  /** A message from `sender` whose only part is HTML holding one image. */
  function PixelMessage(sender: string, date: Option<string>, pixel: string): Message {
    Message(Some(sender), date, [Part("text/html", [Some(pixel)])])
  }

  /** The image is remote: a candidate whose host is not the sender's domain. */
  predicate RemotePixel(up: UrlParser, sender: string, pixel: string) {
    IsCandidate(Some(pixel)) && DomainOf(Some(sender)) != Some(Host(up.netloc, pixel))
  }

  /** A pixel message records its image once, whatever the store holds. */
  lemma PixelMessageRecords(st: Store, cfg: Config, up: UrlParser, sender: string, date: Option<string>, pixel: string, n: nat)
    requires cfg.domainFilter == None && RemotePixel(up, sender, pixel)
    ensures ProcessMessage(st, cfg, up, PixelMessage(sender, date, pixel), n) ==
            Success(Record(st, cfg, up, pixel, Info(n, Some(sender), date)))
  {
    var info := Info(n, Some(sender), date);
    var sd := DomainOf(Some(sender));
    var part := Part("text/html", [Some(pixel)]);
    assert IsHtml(part) by {
      assert part.contentType[..|"text/html"|] == "text/html";
    }
    assert Accepts(cfg, up, sd, Some(pixel));
    var st' := Record(st, cfg, up, pixel, info);
    assert part.srcs[..0] == [];
    assert ExtractSrcs(st, cfg, up, sd, info, part.srcs) == st';
    assert ProcessPart(st, cfg, up, Some(sender), info, part) == Success(st');
    var parts := [part];
    assert parts[..0] == [];
    assert ProcessParts(st, cfg, up, Some(sender), info, parts) == Success(st');
  }

  /** A pixel message processed as message `n` on the empty store. */
  lemma FirstPixel(cfg: Config, up: UrlParser, sender: string, date: Option<string>, pixel: string, n: nat)
    requires cfg.domainFilter == None && RemotePixel(up, sender, pixel)
    ensures ProcessMessage(EmptyStore, cfg, up, PixelMessage(sender, date, pixel), n) ==
            Success(Store({KeyOf(cfg, up, pixel)}, map[KeyOf(cfg, up, pixel) := 1],
                          map[KeyOf(cfg, up, pixel) := [Info(n, Some(sender), date)]]))
  {
    var info := Info(n, Some(sender), date);
    PixelMessageRecords(EmptyStore, cfg, up, sender, date, pixel, n);
    var key := KeyOf(cfg, up, pixel);
    var st := Record(EmptyStore, cfg, up, pixel, info);
    assert Count(EmptyStore, key) == 0;
    assert Refs(EmptyStore, key) + [info] == [info];
    assert st.urls == {key};
    assert st.counts == map[key := 1];
    assert st.refs == map[key := [info]];
  }

  /** One block whose message has a single HTML part holding one remote
      image: one entry, counted once, with one reference numbered 1. */
  lemma OneMessageOnePixel(cfg: Config, o: Oracles, b: Block, sender: string, date: Option<string>, pixel: string)
    requires cfg.domainFilter == None && !cfg.uniqueNames
    requires o.parse(b) == PixelMessage(sender, date, pixel) && RemotePixel(o.url, sender, pixel)
    ensures Analyse(cfg, o, [b]) == Success({Entry(pixel, 1, [Info(1, Some(sender), date)])})
  {
    FirstPixel(cfg, o.url, sender, date, pixel, 1);
    assert [b][..0] == [];
    var info := Info(1, Some(sender), date);
    var st := Store({pixel}, map[pixel := 1], map[pixel := [info]]);
    assert ProcessAll(cfg, o, [b]) == Success(st);
    assert Entry(pixel, 1, [info]) in Report(st, false);
    assert Report(st, false) == {Entry(pixel, 1, [info])};
  }

  /** Two messages from the same sender with the same remote image: in
      default mode one entry counted twice with both references in read
      order; in unique mode no entry at all. */
  lemma TwoMessagesSamePixel(cfg: Config, o: Oracles, b1: Block, b2: Block, sender: string,
                             d1: Option<string>, d2: Option<string>, pixel: string)
    requires cfg.domainFilter == None
    requires o.parse(b1) == PixelMessage(sender, d1, pixel) && o.parse(b2) == PixelMessage(sender, d2, pixel)
    requires RemotePixel(o.url, sender, pixel)
    ensures !cfg.uniqueNames ==>
              Analyse(cfg, o, [b1, b2]) ==
              Success({Entry(pixel, 2, [Info(1, Some(sender), d1), Info(2, Some(sender), d2)])})
    ensures cfg.uniqueNames ==> Analyse(cfg, o, [b1, b2]) == Success({})
  {
    FirstPixel(cfg, o.url, sender, d1, pixel, 1);
    assert [b1, b2][..1] == [b1];
    assert [b1][..0] == [];
    var key := KeyOf(cfg, o.url, pixel);
    var st1 := Store({key}, map[key := 1], map[key := [Info(1, Some(sender), d1)]]);
    assert ProcessAll(cfg, o, [b1]) == Success(st1);
    var info2 := Info(2, Some(sender), d2);
    PixelMessageRecords(st1, cfg, o.url, sender, d2, pixel, 2);
    var st2 := Record(st1, cfg, o.url, pixel, info2);
    assert ProcessAll(cfg, o, [b1, b2]) == Success(st2);
    if cfg.uniqueNames {
      assert Count(st2, key) == 2;
      assert Report(st2, true) == {};
    } else {
      assert st2.urls == {pixel};
      assert Count(st2, pixel) == 2;
      assert Refs(st2, pixel) == [Info(1, Some(sender), d1), info2];
      assert Entry(pixel, 2, [Info(1, Some(sender), d1), info2]) in Report(st2, false);
      assert Report(st2, false) == {Entry(pixel, 2, [Info(1, Some(sender), d1), info2])};
    }
  }

  /** As written: a one-message mbox archive, its envelope line followed by
      the message. The envelope line alone is block 1, which the parser
      reads as a message without any HTML part (an empty `text/plain` body
      under the envelope), so the pixel is reported under message number 2. */
  lemma EnvelopeShiftsNumbering(cfg: Config, o: Oracles, env: Line, msgLine: Line,
                                sender: string, date: Option<string>, pixel: string)
    requires cfg.domainFilter == None && !cfg.uniqueNames
    requires IsDelimiter(env) && !IsDelimiter(msgLine) && |msgLine| > 0
    requires forall i :: 0 <= i < |o.parse([env]).parts| ==> !IsHtml(o.parse([env]).parts[i])
    requires o.parse([msgLine]) == PixelMessage(sender, date, pixel) && RemotePixel(o.url, sender, pixel)
    ensures Scan([env, msgLine], cfg, o) == Success({Entry(pixel, 1, [Info(2, Some(sender), date)])})
  {
    var lines := [env, msgLine];
    assert lines[..1] == [env] && [env][..0] == [];
    assert Bytes([env]) == env;
    assert Run([env]) == SplitterState([[env]], []);
    assert Bytes([msgLine]) == msgLine by {
      assert [msgLine][..0] == [];
    }
    assert Run(lines) == SplitterState([[env]], [msgLine]);
    assert Split(lines) == [[env], [msgLine]];
    var blocks := [[env], [msgLine]];
    assert blocks[..1] == [[env]] && [[env]][..0] == [];
    NoHtmlLeavesStore(EmptyStore, cfg, o.url, o.parse([env]), 1);
    assert ProcessAll(cfg, o, [[env]]) == Success(EmptyStore);
    FirstPixel(cfg, o.url, sender, date, pixel, 2);
    var info := Info(2, Some(sender), date);
    var st := Store({pixel}, map[pixel := 1], map[pixel := [info]]);
    assert ProcessAll(cfg, o, blocks) == Success(st);
    assert Entry(pixel, 1, [info]) in Report(st, false);
    assert Report(st, false) == {Entry(pixel, 1, [info])};
  }

  /** Corrected: the same archive split at envelope lines is one block, the
      message with its envelope line, and the pixel is reported under
      message number 1. */
  lemma EnvelopeNumberedOne(cfg: Config, o: Oracles, env: Line, msgLine: Line,
                            sender: string, date: Option<string>, pixel: string)
    requires cfg.domainFilter == None && !cfg.uniqueNames
    requires IsDelimiter(env) && !IsDelimiter(msgLine)
    requires o.parse([env, msgLine]) == PixelMessage(sender, date, pixel) && RemotePixel(o.url, sender, pixel)
    ensures ScanAtEnvelopes([env, msgLine], cfg, o) == Success({Entry(pixel, 1, [Info(1, Some(sender), date)])})
  {
    var lines := [env, msgLine];
    assert lines[..1] == [env] && [env][..0] == [];
    assert RunAtEnvelopes([env]) == SplitterState([], [env]);
    assert RunAtEnvelopes(lines) == SplitterState([], lines);
    assert Bytes(lines) == Bytes([env]) + msgLine;
    assert Bytes([env]) == env;
    assert SplitAtEnvelopes(lines) == [lines];
    OneMessageOnePixel(cfg, o, lines, sender, date, pixel);
  }
}
