# Tracking-pixel scan of an mbox archive, modelled in Dafny

This project models the core of `PixelScanEmail.py`: the scan that reads an
mbox archive line by line, cuts it into messages at every line starting with
`From `, walks each message's HTML parts, classifies every `<img src>` as a
tracking-pixel candidate or not, and aggregates the candidates into a set of
URLs, a per-URL reference count and a per-URL list of referencing messages
(number, sender, date), from which the final report is drawn.

The model is a pure fold:

- `Mbox` (`mbox.dfy`): the line splitter as a left fold (`Step`, `Run`,
  `Split`) over lines of bytes, with independent definitions of "closed
  block", the delimiter count and the tail after the last delimiter; and
  `SplitAtEnvelopes`, the corrected splitter of "## Findings".
- `Text` (`text.dfy`): ASCII `lower()`, `startswith`, the substring test `in`
  and `split` on one character.
- `Domains` (`domains.dfy`): `get_domain_from_email`, `is_embedded_image`,
  `is_different_domain`. `image_domain` is a datatype with three readings:
  absent, a boolean (what the command line passes) or a domain string.
- `Aggregation` (`store.dfy`): the three structures as one `Store`, the test
  of line 69 (`Accepts`), the update of lines 70-80 (`Record`) and the `img`
  loop (`ExtractSrcs`), with the store invariants of both modes.
- `Messages` (`messages.dfy`): `process_email` over a parsed message given
  as its `From`, `Date` and parts in `walk()` order.
- `Scanner` (`scanner.dfy`): numbering blocks 1, 2, 3, ..., the report, the
  whole run `Scan`, `ScanFile` (the streaming loop as written), and
  `RunHits`, each key's reference count recomputed from the accepted
  sources of every block.
- `Scenarios` (`scenarios.dfy`): one-message and two-message runs, and a
  one-message archive with its envelope line under both splitters.

The MIME parser (`message_from_bytes`, `walk()`, payload decoding and
BeautifulSoup) is one parameter `parse: Block -> Message`; `urlparse(...).netloc`
and `urlparse(...).geturl()` are two more (`UrlParser`). Everything is a
function of its inputs, so running twice on the same archive and configuration
gives the same report.

Notes on what `PixelScanEmail.py` does, which the model follows:

- Each line is appended to the buffer before the `From ` test (line 24,
  then line 25), so a block ENDS with the `From ` line that closed it.
  In an archive where every message starts with a `From ` envelope line,
  the first block is that envelope line alone and message k of the archive
  is processed as message k + 1 (see "## Findings").
- The sender domain is the lower-cased text between the first `@` and the
  next `@` or the end (`split('@')[1]`, lines 96-97).
- Without a sender filter, a message with no `From` header is processed:
  its sender domain is `None`, so every candidate passes the cross-domain
  test. With a filter set, `domain in message['From']` on `None` raises a
  `TypeError` that ends the scan (`SenderMissing`), and only when the
  message has an HTML part (line 61 is reached only for such parts).
- HTML is parsed with one parser, `html.parser` (line 66).
- `cid:` sources are always excluded (line 69); `ignore_embedded` and
  `max_unique_names` are passed along but never read
  (`MessageIgnoresUnreadOptions`).
- The command-line flag `--image-domain` makes `image_domain` the boolean
  `True`, which never equals a host string, so every non-`cid:` image
  passes the cross-domain test (`IsDifferentDomain`).

## Model

| member | source | states |
|---|---|---|
| Mbox.RunInvariant | PixelScanEmail.py:22-28 | after any prefix of lines, the emitted blocks followed by the pending buffer are exactly the lines read, every emitted block ends with its only "From " line, the buffer holds no delimiter and is the suffix after the last delimiter, and one block was emitted per delimiter |
| Mbox.StepOnDelimiter | PixelScanEmail.py:24-28 | reading a "From " line appends it to the buffer and emits the buffer as a closed block, keeping the splitter invariant |
| Mbox.StepOnOtherLine | PixelScanEmail.py:24-25 | reading any other line only appends it to the buffer, keeping the splitter invariant |
| Mbox.SplitKeepsBytes | PixelScanEmail.py:22-32 | concatenating the blocks gives back every byte of the archive |
| Mbox.SplitKeepsLines | PixelScanEmail.py:22-32 | when no line is empty (as lines read from a file never are), concatenating the blocks gives back exactly the input lines |
| Mbox.SplitShape | PixelScanEmail.py:25-32 | every block holds at least one byte; every block but the last ends with exactly one "From " line; the last one does too or contains no delimiter |
| Mbox.SplitCount | PixelScanEmail.py:22-32 | the number of blocks is the number of "From " lines plus one when the tail after the last of them holds a byte |
| Mbox.ClosedBlockHasContent | PixelScanEmail.py:26 | a block ending with a "From " line is never empty, so the `if email_data` test at a delimiter always passes |
| Mbox.Split | PixelScanEmail.py:22-32 | no block handed to message processing is empty, as the `if email_data` tests of lines 26 and 31 ensure |
| Mbox.LeadingEnvelopeAlone | PixelScanEmail.py:22-28 | an archive starting with a `From ` envelope line yields that line alone as its first block |
| Mbox.SplitAtEnvelopesCount | PixelScanEmail.py:22-32 | split at envelope lines, an archive starting with one gives exactly one block per envelope line |
| Mbox.SplitAtEnvelopesOpened | PixelScanEmail.py:22-32 | split at envelope lines, every block of such an archive starts with its own envelope line and holds no other |
| Mbox.SplitAtEnvelopesKeepsLines | PixelScanEmail.py:22-32 | split at envelope lines, the blocks of such an archive concatenated give back its lines |
| Mbox.OpenedBlockHasContent | PixelScanEmail.py:26 | a block starting with a `From ` line is never empty |
| Mbox.BytesAppend | PixelScanEmail.py:24 | the bytes accumulated from two runs of lines are the bytes of the first followed by those of the second |
| Text.IndexOf | PixelScanEmail.py:96 | the index found holds the separator and no earlier position does |
| Text.SplitOnJoin | PixelScanEmail.py:96 | `split('@')` yields at least one piece, the pieces joined with the separator give back the string, and no piece contains the separator |
| Text.SplitOnHasSecond | PixelScanEmail.py:97 | `split('@')` yields more than one piece exactly when the string contains '@' |
| Text.ContainsIffOccurs | PixelScanEmail.py:61 | the substring test holds exactly when the filter occurs at some position of the `From` value |
| Domains.DomainOfFirstSegment | PixelScanEmail.py:94-99 | the sender domain is the lower-cased text between the first '@' and the next '@' or the end |
| Domains.EmbeddedIsCaseInsensitivePrefix | PixelScanEmail.py:87-88 | the `cid:` test ignores letter case and looks only at the scheme; an embedded reference is never empty |
| Domains.IsEmbedded | PixelScanEmail.py:87-88 | a URL is embedded exactly when it has at least four characters and the first four, lower-cased, are `cid:` |
| Domains.EmbeddedIgnoresCase | PixelScanEmail.py:87-88 | two URLs equal up to letter case are both embedded or neither |
| Domains.DomainOf | PixelScanEmail.py:94-99 | a sender domain exists exactly when the `From` value is present and contains '@', and it never contains '@' itself |
| Domains.IsDifferentDomain | PixelScanEmail.py:82-85 | the test passes for an absent sender domain and for a boolean `True` image domain; when it fails, the lower-cased host is the sender domain |
| Domains.IsDifferentDomainCases | PixelScanEmail.py:82-85 | a lower-cased host different from the sender domain always passes; a host equal to it passes exactly against a truthy image domain different from the host; against a falsy image domain the sender domain alone decides |
| Aggregation.Accepts | PixelScanEmail.py:69 | an accepted source is present, non-empty and not `cid:`; in unique mode every such candidate is accepted; in default mode a candidate is accepted exactly when it passes the cross-domain test |
| Aggregation.Record | PixelScanEmail.py:70-80 | in both modes one accepted source raises the count of its key (the URL, or its `geturl` in unique mode) by one and the set grows by at most that key; `RecordListed` and `RecordUnique` add that every other key is untouched |
| Aggregation.ExtractSrcs | PixelScanEmail.py:67-80 | the `img` loop never removes a URL from the set, and a part without any present, non-empty, non-`cid:` source leaves the store as it was |
| Aggregation.HitsPositive | PixelScanEmail.py:69-80 | a source that passes the test of line 69 is counted under its own key at least once |
| Aggregation.RecordListed | PixelScanEmail.py:77-80 | default mode: the URL joins the set, its count rises by one, the message info is appended to its list, and every other URL is untouched |
| Aggregation.RecordUnique | PixelScanEmail.py:70-76 | unique mode: the `geturl` key's count rises on every encounter; only when it was 0 does the key join the set and get the info appended; later encounters leave set and lists unchanged |
| Aggregation.RejectedSrcLeavesStore | PixelScanEmail.py:68-69 | a missing, empty or `cid:` source changes nothing, whatever the configuration, `ignore_embedded` included |
| Aggregation.UniqueBypassesDomain | PixelScanEmail.py:69 | in unique mode the outcome depends neither on the sender domain nor on the host extraction |
| Aggregation.SameDomainRejected | PixelScanEmail.py:69 | default mode: an image whose host equals the sender domain, and equals the image domain or meets a falsy one, is not recorded |
| Aggregation.AcceptSrcKeepsInv | PixelScanEmail.py:69-80 | one source keeps the mode's store shape: keys of the three structures agree; default mode, count equals list length, at least 1, and no stored URL is empty or `cid:`; unique mode, count at least 1 and exactly one reference |
| Aggregation.ExtractKeepsInv | PixelScanEmail.py:67-80 | the whole `img` loop keeps the mode's store shape |
| Aggregation.ExtractCounts | PixelScanEmail.py:67-80 | in both modes each key's count grows by exactly the number of accepted sources stored under it |
| Aggregation.ExtractRefsListed | PixelScanEmail.py:77-80 | default mode: each URL's list grows by one copy of the message info per accepted occurrence, appended in encounter order, and the URL is in the set afterwards iff it was before or occurred |
| Aggregation.ExtractRefsUnique | PixelScanEmail.py:70-76 | unique mode: a key's list becomes the info of its first encounter when its count was 0 and is otherwise unchanged; the key joins the set on that first encounter |
| Aggregation.ExtractIgnoresNonCandidates | PixelScanEmail.py:68-69 | removing every missing, empty or `cid:` source beforehand gives the same store |
| Aggregation.ExtractGrows | PixelScanEmail.py:67-80 | the loop only adds: the set grows, no count falls, and lists only get the current message's info appended |
| Aggregation.ExtractStoresAccepted | PixelScanEmail.py:78 | default mode: every accepted source is in the set afterwards |
| Aggregation.ExtractReadsOnlyModeAndImageDomain | PixelScanEmail.py:64 | the `img` loop reads only `unique_names` and `image_domain` from the configuration |
| Messages.ProcessPart | PixelScanEmail.py:57-62 | one part fails exactly when it is HTML, a filter is set and the `From` header is absent, with `SenderMissing` for the current message; on success the set only grows |
| Messages.ProcessMessage | PixelScanEmail.py:48-62 | a message fails exactly when a filter is set, its `From` header is absent and it has an HTML part, and then with `SenderMissing` for its own number; on success the set only grows |
| Messages.MessageCounts | PixelScanEmail.py:57-80 | a successful message raises each key's count by exactly the number of sources its scanned parts (HTML, and `From` matching any filter) accept under that key |
| Messages.MessageRecordsAccepted | PixelScanEmail.py:57-80 | default mode: a message with a source accepted in a scanned part succeeds, and the source is then in the set with the message's info in its list |
| Messages.NoHtmlLeavesStore | PixelScanEmail.py:57-58 | a message without any HTML part leaves the store unchanged, whatever its headers and the configuration |
| Messages.MessageRefsListed | PixelScanEmail.py:57-80 | default mode: a successful message appends to each URL's list one copy of its own info per source its scanned parts accept as that URL, and nothing else |
| Messages.MessageRefsUnique | PixelScanEmail.py:57-76 | unique mode: a successful message sets a key's list to its own info when the key was never counted before and the message accepts it, and leaves every other list as it was |
| Messages.OnlyHtmlContributes | PixelScanEmail.py:57-59 | dropping every part whose content type does not start with "text/html" gives the same result |
| Messages.FilterMismatchLeavesStore | PixelScanEmail.py:61 | with a sender filter set, a message whose `From` does not contain it leaves the store unchanged |
| Messages.FilterMatchIsUnfiltered | PixelScanEmail.py:61-62 | a message whose `From` contains the filter is processed exactly as with no filter |
| Messages.MissingSenderUnderFilter | PixelScanEmail.py:52-61 | with a filter set and no `From` header, the message fails with `SenderMissing` exactly when it has an HTML part, and otherwise leaves the store unchanged |
| Messages.MessageWithoutSenderIsScanned | PixelScanEmail.py:55-62 | without a filter, a message with no `From` header is still processed and, in default mode, each of its candidate sources is recorded |
| Messages.MessageKeepsInvAndGrows | PixelScanEmail.py:48-62 | a successful message keeps the mode's store shape and only appends its own info to lists |
| Messages.MessageIgnoresUnreadOptions | PixelScanEmail.py:48 | `ignore_embedded` and `max_unique_names` have no effect on the result |
| Scanner.ProcessAll | PixelScanEmail.py:14-32 | a run fails exactly when some block's message has no `From` header and an HTML part under an active filter, and then with the number of the first such block, where processing stops |
| Scanner.NoFilterNeverFails | PixelScanEmail.py:61 | without a sender filter a run always succeeds |
| Scanner.ProcessAllRefs | PixelScanEmail.py:14-80 | after a successful run each key's list equals the one recomputed from the blocks: block k's info once per source of block k accepted under the key, in read order (default mode), or the info of the first block accepting it (unique mode) |
| Scanner.AnalyseReportsRefs | PixelScanEmail.py:38-46 | every reported entry's list is exactly the recomputed list of its URL |
| Scanner.ReportMatchesRun | PixelScanEmail.py:38-46 | every reported entry's count and list are those recomputed from the accepted sources of the blocks |
| Scanner.ReportShape | PixelScanEmail.py:38-46 | from a store with the mode's shape and numbered lists, every entry of the report has the mode's count and list shape, and each reference carries its block's number and headers |
| Scanner.AnalyseShape | PixelScanEmail.py:38-46 | over any blocks, a successful run's report has the mode's shape, and every reference is sorted by number and carries its block's number and headers |
| Scanner.Scan | PixelScanEmail.py:7-32 | the run over the blocks the loop cuts fails exactly when some block raises at line 61, with the number of the first such block |
| Scanner.ProcessAllCounts | PixelScanEmail.py:14-32 | after a successful run each key's count equals the number of accepted sources stored under it over the scanned parts of all blocks |
| Scanner.AnalyseReportsHits | PixelScanEmail.py:38-46 | a key is reported exactly when it was accepted at least once (default mode) or exactly once (unique mode) over the whole archive, with that number as its count |
| Scanner.ProcessAllRecordsAccepted | PixelScanEmail.py:14-80 | default mode: after a successful run every source accepted in a scanned part of block k is in the set, with message k's info in its list |
| Scanner.AcceptedSourceReported | PixelScanEmail.py:14-80 | default mode: every source accepted in a scanned part of block k is reported, and its references include message k with that block's `From` and `Date` |
| Scanner.ScanAtEnvelopes | PixelScanEmail.py:22-32 | the run over blocks opened by envelope lines fails only with the number of one of those blocks |
| Scanner.ScanFile | PixelScanEmail.py:7-46 | the streaming loop, which processes each block as soon as its delimiter is read and counts messages on the way, returns exactly the result of the fold `Scan` |
| Scanner.InfosNumbered | PixelScanEmail.py:14-17 | the k-th block read is processed as message number k, with its own `From` and `Date` |
| Scanner.GrowsKeepsNumbered | PixelScanEmail.py:14-17 | appending only the info of message n to lists numbered below n keeps every list sorted by message number |
| Scanner.ProcessAllFacts | PixelScanEmail.py:22-32 | after a successful run the store has its mode's shape and every list is sorted by message number and holds only infos of blocks read |
| Scanner.RefsCarryHeaders | PixelScanEmail.py:14-17 | every stored reference numbered k is exactly the number, `From` and `Date` of the k-th block read |
| Scanner.Report | PixelScanEmail.py:38-46 | the report holds one entry per URL: exactly the URLs of the set less those counted more than once in unique mode, each with its stored count and list |
| Scanner.ReportUniqueMode | PixelScanEmail.py:38-41 | in unique mode every reported URL has count 1 and one reference |
| Scanner.ReportListedMode | PixelScanEmail.py:38-46 | in default mode every reported count equals its list length and is at least 1, and no reported URL is empty or `cid:` |
| Scanner.ScanReport | PixelScanEmail.py:7-46 | for a successful run: the report shape of the mode; every reference, in read order, carries the number of its block and that block's headers; and each entry's count and list are those recomputed from the accepted sources of the blocks |
| Scenarios.PixelMessageRecords | PixelScanEmail.py:48-80 | a message whose only HTML part holds one remote image records that image exactly once |
| Scenarios.FirstPixel | PixelScanEmail.py:48-80 | on an empty store such a message yields one key counted once with one reference |
| Scenarios.OneMessageOnePixel | PixelScanEmail.py:38-80 | one block holding such a message gives a report with one entry, count 1, one reference numbered 1 with the sender |
| Scenarios.EnvelopeShiftsNumbering | PixelScanEmail.py:14-32 | an archive of one envelope line and one such message, scanned as written, with the envelope block parsed as any message without an HTML part, reports the image once under message number 2 |
| Scenarios.EnvelopeNumberedOne | PixelScanEmail.py:14-32 | the same archive split at envelope lines reports the image once under message number 1 |
| Scenarios.TwoMessagesSamePixel | PixelScanEmail.py:38-80 | two such messages from one sender: default mode reports count 2 with both references in read order; unique mode reports nothing |

## Left out

- `DownloadIMAP.py`: the IMAP client, login, mailbox selection and file writing are I/O with nothing to verify.
- The copyright lines and the `input()` consent prompt (lines 102-110), and the argparse wiring (lines 113-123), apart from `--image-domain` passing a boolean, which `ImageDomain.FlagValue` keeps.
- All `print` output: progress lines and the report text. The report is returned as a set of entries.
- Opening and reading the file and its errors: the archive arrives as its lines.
- `message_from_bytes`, `walk()`, `get_content_type()` and `get_payload(decode=True).decode('utf-8', errors='ignore')`: MIME parsing and charset decoding are the `parse` parameter. A part whose payload decodes to `None` (an `AttributeError` in the source) is not modelled.
- BeautifulSoup: each HTML part arrives as the `src` values of its `img` tags.
- `urlparse(...).netloc` and `urlparse(...).geturl()`: uninterpreted parameters.
- The iteration order of `image_urls` in the report loop, which Python leaves unspecified: the report is a set.
- `str.lower()` beyond ASCII: the model lower-cases only 'A' to 'Z'.
- A `From` header object that is not a plain string: headers are `Option<string>`.
- `ScanFile` keeps reading lines after a `SenderMissing` error where the source stops; the result is the same error either way.
- `urlparse` raising `ValueError` (for example on `http://[x`, an invalid IPv6 host) at line 69 in either mode, which ends the real scan with no report: `netloc` and `geturl` are total functions here, so such a source is classified like any other.
- What `geturl()` returns: in unique mode the stored key is `geturl(src)`, so that a `cid:`-free URL keeps a `cid:`-free key is not modelled, and the absence of `cid:` URLs from the report is proved for default mode only.

## Findings

| source | as written | input that shows it | evidently intended | confidence | as-written member | corrected member |
|---|---|---|---|---|---|---|
| PixelScanEmail.py:24-28 | each line is appended to the buffer before the `From ` test, so an envelope line closes the previous block and stays at its end | a standard mbox archive: an envelope line `From a@example.com Mon Jan 1 00:00:00 2024`, then one message: block 1 is the envelope line alone (a message with no HTML part), the message is block 2 and its references are numbered 2 | an envelope line opens the block of its own message, so message k of the archive is reported as message k | not executed; medium | Mbox.LeadingEnvelopeAlone, Scenarios.EnvelopeShiftsNumbering | Mbox.SplitAtEnvelopesCount, Mbox.SplitAtEnvelopesOpened, Scenarios.EnvelopeNumberedOne |

`Scan` and `ScanFile` keep the splitter as written. The corrected splitter
`SplitAtEnvelopes` feeds the same `Analyse` in `ScanAtEnvelopes`; every
run-level lemma of `Scanner` is stated over a sequence of blocks, so it holds
for either splitter.
