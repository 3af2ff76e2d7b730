/**
 * The background service worker: the dispatch of runtime messages, the
 * single and batch downloads (the browser's download call is an oracle
 * passed in), the reply with the stored scan, the file-name sanitiser and
 * the filter of the storage cleanup.
 */
module Background {
  import opened Strings
  import opened Content

  // ---------------------------------------------------------------------------
  // Messages, replies and effects
  // ---------------------------------------------------------------------------

  /** A single download request; an absent or empty field is "". */
  datatype DownloadData = DownloadData(url: string, filename: string, format: string)

  /**
   * One image of a batch request; an absent or empty format is "". The sizes
   * are taken to be non-negative integers: the message is not checked, and an
   * absent or fractional size is not modelled.
   */
  datatype BatchItem = BatchItem(url: string, width: nat, height: nat, format: string)

  /** The `data` of a request: absent, one image, or a list of images. */
  datatype Payload = NoData | Single(data: DownloadData) | Batch(items: seq<BatchItem>)

  datatype Message = Message(action: string, payload: Payload)

  datatype DownloadCall = DownloadCall(url: string, filename: string)

  /** What the browser's download call gives: an id, or a rejection with its message. */
  datatype DownloadResult = Started(id: nat) | Failed(message: string)

  /** A value kept in local storage, as far as the cleanup reads it. */
  datatype StoredValue =
    | NullValue
    | ObjectValue(timestamp: int)   // an absent or zero `timestamp` field is 0
    | PrimitiveValue

  datatype StorageRead = ReadOk(items: map<string, StoredValue>) | ReadFailed(message: string)

  datatype Response =
    | DownloadStarted(downloadId: nat)
    | BatchDone(downloadIds: seq<nat>, totalDownloaded: nat, totalRequested: Option<nat>)  // None: the data had no length
    | StoredImages(data: map<string, StoredValue>)
    | Failure(error: string)

  /** What a handler asks of the browser, in order. */
  datatype Effect = Download(call: DownloadCall) | Pause(ms: nat) | OpenViewerTab

  const KnownActions: set<string> := {"downloadImage", "downloadMultipleImages", "getStoredImages", "openViewer"}

  const UnknownActionError: string := "Action non reconnue"

  /** The error a handler replies with when the request has no data of the expected shape. */
  const InvalidDataError: string := "invalid data"

  const BatchDelayMs: nat := 200

  // ---------------------------------------------------------------------------
  // Single download (handleImageDownload)
  // ---------------------------------------------------------------------------

  /** `format || 'jpg'`. */
  function FormatOr(format: string): (ext: string)
    ensures ext != ""
    ensures format != "" ==> ext == format
  {
    if format != "" then format else "jpg"
  }

  /** The name used when the request gives none: "image_<now>.<format or jpg>". */
  function DefaultFilename(now: nat, format: string): string {
    "image_" + NatToString(now) + "." + FormatOr(format)
  }

  function ParseDefaultFilename(name: string): Option<(nat, string)> {
    match StripPrefix(name, "image_")
    case None => None
    case Some(rest) =>
      match SplitAtFirst(rest, '.')
      case None => None
      case Some((digits, ext)) =>
        match ParseNat(digits)
        case None => None
        case Some(now) => Some((now, ext))
  }

  /** The default name carries the clock reading and the extension, and they can be read back. */
  lemma DefaultFilenameRoundTrip(now: nat, format: string)
    ensures ParseDefaultFilename(DefaultFilename(now, format)) == Some((now, FormatOr(format)))
  {
    var digits := NatToString(now);
    var rest := digits + "." + FormatOr(format);
    assert DefaultFilename(now, format) == "image_" + rest;
    StripPrefixOf("image_", rest);
    NoLetterInDigits(digits, '.');
    assert rest == digits + ['.'] + FormatOr(format);
    SplitAtFirstOf(digits, '.', FormatOr(format));
    ParseNatOfNatToString(now);
  }

  /** The call handleImageDownload makes: the given name, or the default one. */
  function SingleCall(d: DownloadData, now: nat): (call: DownloadCall)
    ensures call.url == d.url
    ensures d.filename != "" ==> call.filename == d.filename
    ensures d.filename == "" ==> ParseDefaultFilename(call.filename) == Some((now, FormatOr(d.format)))
  {
    DefaultFilenameRoundTrip(now, d.format);
    DownloadCall(d.url, if d.filename != "" then d.filename else DefaultFilename(now, d.format))
  }

  /** The fields handleImageDownload reads from present data: a list has none of them. */
  function FieldsOf(payload: Payload): (d: DownloadData)
    requires !payload.NoData?
    ensures payload.Single? ==> d == payload.data
    ensures payload.Batch? ==> d == DownloadData("", "", "")
  {
    if payload.Single? then payload.data else DownloadData("", "", "")
  }

  /**
   * handleImageDownload: one download call, and its id or its error as the
   * reply. Absent data throws before any call.
   */
  function HandleImageDownload(payload: Payload, now: nat, download: DownloadCall -> DownloadResult): (out: (Response, seq<Effect>))
    ensures payload.NoData? ==> out == (Failure(InvalidDataError), [])
    ensures !payload.NoData? ==>
      var call := SingleCall(FieldsOf(payload), now);
      && out.1 == [Download(call)]
      && (out.0.DownloadStarted? <==> download(call).Started?)
      && (download(call).Started? ==> out.0.downloadId == download(call).id)
      && (download(call).Failed? ==> out.0 == Failure(download(call).message))
  {
    if payload.NoData? then (Failure(InvalidDataError), [])
    else
      var call := SingleCall(FieldsOf(payload), now);
      match download(call)
      case Started(id) => (DownloadStarted(id), [Download(call)])
      case Failed(message) => (Failure(message), [Download(call)])
  }

  // ---------------------------------------------------------------------------
  // Batch download (handleMultipleImageDownload)
  // ---------------------------------------------------------------------------

  /** "image_<i+1>_<W>x<H>.<format or jpg>": the file part of the name of the item at index `i`. */
  function BatchFile(index: nat, item: BatchItem): string {
    "image_" + NatToString(index + 1) + "_" + DimensionKey(item.width, item.height) + "." + FormatOr(item.format)
  }

  /** "images_batch_<ts>/image_<i+1>_<W>x<H>.<format or jpg>": the batch folder, then the file. */
  function BatchFilename(timestamp: nat, index: nat, item: BatchItem): string {
    "images_batch_" + NatToString(timestamp) + "/" + BatchFile(index, item)
  }

  /** Reads back the 1-based position, the size and the extension of "image_<pos>_<W>x<H>.<ext>". */
  function ParseBatchFile(file: string): Option<(nat, nat, nat, string)> {
    match StripPrefix(file, "image_")
    case None => None
    case Some(tail) =>
      match SplitAtFirst(tail, '_')
      case None => None
      case Some((posDigits, sized)) =>
        match (ParseNat(posDigits), SplitAtFirst(sized, '.'))
        case (Some(pos), Some((dimension, ext))) =>
          (match ParseDimensionKey(dimension)
           case Some((w, h)) => Some((pos, w, h, ext))
           case None => None)
        case _ => None
  }

  /** Reads back the timestamp, the 1-based position, the size and the extension of a batch name. */
  function ParseBatchFilename(name: string): Option<(nat, nat, nat, nat, string)> {
    match StripPrefix(name, "images_batch_")
    case None => None
    case Some(rest) =>
      match SplitAtFirst(rest, '/')
      case None => None
      case Some((tsDigits, file)) =>
        match (ParseNat(tsDigits), ParseBatchFile(file))
        case (Some(ts), Some((pos, w, h, ext))) => Some((ts, pos, w, h, ext))
        case _ => None
  }

  lemma NoSeparatorInKey(width: nat, height: nat, c: char)
    requires c == '.' || c == '_' || c == '/'
    ensures c !in DimensionKey(width, height)
  {
    NoLetterInDigits(NatToString(width), c);
    NoLetterInDigits(NatToString(height), c);
  }

  lemma BatchTailRoundTrip(index: nat, item: BatchItem)
    ensures var sized := DimensionKey(item.width, item.height) + "." + FormatOr(item.format);
      SplitAtFirst(NatToString(index + 1) + "_" + sized, '_') == Some((NatToString(index + 1), sized)) &&
      SplitAtFirst(sized, '.') == Some((DimensionKey(item.width, item.height), FormatOr(item.format)))
  {
    var key := DimensionKey(item.width, item.height);
    var sized := key + "." + FormatOr(item.format);
    var pos := NatToString(index + 1);
    NoLetterInDigits(pos, '_');
    assert pos + "_" + sized == pos + ['_'] + sized;
    SplitAtFirstOf(pos, '_', sized);
    NoSeparatorInKey(item.width, item.height, '.');
    assert sized == key + ['.'] + FormatOr(item.format);
    SplitAtFirstOf(key, '.', FormatOr(item.format));
  }

  lemma BatchFileRoundTrip(index: nat, item: BatchItem)
    ensures ParseBatchFile(BatchFile(index, item)) ==
      Some((index + 1, item.width, item.height, FormatOr(item.format)))
  {
    var pos := NatToString(index + 1);
    var sized := DimensionKey(item.width, item.height) + "." + FormatOr(item.format);
    var tail := pos + "_" + sized;
    assert BatchFile(index, item) == "image_" + tail;
    StripPrefixOf("image_", tail);
    BatchTailRoundTrip(index, item);
    ParseNatOfNatToString(index + 1);
    DimensionKeyRoundTrip(item.width, item.height);
  }

  /** A batch name carries the shared timestamp, the item's 1-based position, its size and extension. */
  lemma BatchFilenameRoundTrip(timestamp: nat, index: nat, item: BatchItem)
    ensures ParseBatchFilename(BatchFilename(timestamp, index, item)) ==
      Some((timestamp, index + 1, item.width, item.height, FormatOr(item.format)))
  {
    var ts := NatToString(timestamp);
    var file := BatchFile(index, item);
    var rest := ts + "/" + file;
    assert BatchFilename(timestamp, index, item) == "images_batch_" + rest;
    StripPrefixOf("images_batch_", rest);
    NoLetterInDigits(ts, '/');
    assert rest == ts + ['/'] + file;
    SplitAtFirstOf(ts, '/', file);
    ParseNatOfNatToString(timestamp);
    BatchFileRoundTrip(index, item);
  }

  /** Items at different positions of a batch are saved under different names. */
  lemma BatchFilenamesDistinct(timestamp: nat, i: nat, j: nat, a: BatchItem, b: BatchItem)
    requires i != j
    ensures BatchFilename(timestamp, i, a) != BatchFilename(timestamp, j, b)
  {
    BatchFilenameRoundTrip(timestamp, i, a);
    BatchFilenameRoundTrip(timestamp, j, b);
  }

  function BatchCall(items: seq<BatchItem>, timestamp: nat, i: nat): DownloadCall
    requires i < |items|
  {
    DownloadCall(items[i].url, BatchFilename(timestamp, i, items[i]))
  }

  /** The ids of the successful downloads among the first `k` items, in item order. */
  function BatchIds(items: seq<BatchItem>, timestamp: nat, download: DownloadCall -> DownloadResult, k: nat): (ids: seq<nat>)
    requires k <= |items|
    ensures |ids| <= k
  {
    if k == 0 then []
    else
      BatchIds(items, timestamp, download, k - 1) +
      (match download(BatchCall(items, timestamp, k - 1))
       case Started(id) => [id]
       case Failed(_) => [])
  }

  /** The download of item `i`, followed by the delay when it succeeded and is not the last item. */
  function ItemEffects(items: seq<BatchItem>, timestamp: nat, download: DownloadCall -> DownloadResult, i: nat): seq<Effect>
    requires i < |items|
  {
    var call := BatchCall(items, timestamp, i);
    [Download(call)] + (if download(call).Started? && i < |items| - 1 then [Pause(BatchDelayMs)] else [])
  }

  /** The effects of the first `k` iterations of the batch loop. */
  function BatchEffects(items: seq<BatchItem>, timestamp: nat, download: DownloadCall -> DownloadResult, k: nat): seq<Effect>
    requires k <= |items|
  {
    if k == 0 then []
    else BatchEffects(items, timestamp, download, k - 1) + ItemEffects(items, timestamp, download, k - 1)
  }

  /** The download calls among `effects`, in order. */
  function Calls(effects: seq<Effect>): seq<DownloadCall> {
    if effects == [] then []
    else
      var last := effects[|effects| - 1];
      Calls(effects[..|effects| - 1]) + (if last.Download? then [last.call] else [])
  }

  /** The number of delays among `effects`. */
  function Pauses(effects: seq<Effect>): nat {
    if effects == [] then 0
    else Pauses(effects[..|effects| - 1]) + (if effects[|effects| - 1].Pause? then 1 else 0)
  }

  lemma {:induction false} CallsAppend(a: seq<Effect>, b: seq<Effect>)
    ensures Calls(a + b) == Calls(a) + Calls(b)
    decreases |b|
  {
    if b != [] {
      var n := |b| - 1;
      assert (a + b)[..|a + b| - 1] == a + b[..n];
      CallsAppend(a, b[..n]);
    } else {
      assert a + b == a;
    }
  }

  lemma {:induction false} PausesAppend(a: seq<Effect>, b: seq<Effect>)
    ensures Pauses(a + b) == Pauses(a) + Pauses(b)
    decreases |b|
  {
    if b != [] {
      var n := |b| - 1;
      assert (a + b)[..|a + b| - 1] == a + b[..n];
      PausesAppend(a, b[..n]);
    } else {
      assert a + b == a;
    }
  }

  /** The effects of one item: its download call, then possibly one delay. */
  lemma ItemCalls(call: DownloadCall)
    ensures Calls([Download(call)]) == [call] && Pauses([Download(call)]) == 0
    ensures Calls([Download(call), Pause(BatchDelayMs)]) == [call] && Pauses([Download(call), Pause(BatchDelayMs)]) == 1
  {
    var one := [Download(call)];
    var two := [Download(call), Pause(BatchDelayMs)];
    assert one[..0] == [];
    assert two[..1] == one;
    assert Calls(one) == [call];
    assert Pauses(one) == 0;
  }

  /** The calls for the first `k` items of a batch, in item order. */
  function BatchCalls(items: seq<BatchItem>, timestamp: nat, k: nat): seq<DownloadCall>
    requires k <= |items|
  {
    if k == 0 then [] else BatchCalls(items, timestamp, k - 1) + [BatchCall(items, timestamp, k - 1)]
  }

  /** Every item is attempted once, in order: a failure does not stop the loop. */
  lemma {:induction false} EveryItemAttempted(items: seq<BatchItem>, timestamp: nat, download: DownloadCall -> DownloadResult, k: nat)
    requires k <= |items|
    ensures Calls(BatchEffects(items, timestamp, download, k)) == BatchCalls(items, timestamp, k)
    decreases k
  {
    if k > 0 {
      var earlier := BatchEffects(items, timestamp, download, k - 1);
      var item := ItemEffects(items, timestamp, download, k - 1);
      EveryItemAttempted(items, timestamp, download, k - 1);
      CallsAppend(earlier, item);
      ItemEffectsShape(items, timestamp, download, k - 1);
    }
  }

  lemma ItemEffectsShape(items: seq<BatchItem>, timestamp: nat, download: DownloadCall -> DownloadResult, i: nat)
    requires i < |items|
    ensures var call := BatchCall(items, timestamp, i);
      && Calls(ItemEffects(items, timestamp, download, i)) == [call]
      && Pauses(ItemEffects(items, timestamp, download, i)) == if download(call).Started? && i < |items| - 1 then 1 else 0
  {
    ItemCalls(BatchCall(items, timestamp, i));
  }

  /** Before the last item, there is one delay per success so far. */
  lemma {:induction false} PausesBeforeLast(items: seq<BatchItem>, timestamp: nat, download: DownloadCall -> DownloadResult, k: nat)
    requires k < |items|
    ensures Pauses(BatchEffects(items, timestamp, download, k)) == |BatchIds(items, timestamp, download, k)|
    decreases k
  {
    if k > 0 {
      PausesBeforeLast(items, timestamp, download, k - 1);
      var item := ItemEffects(items, timestamp, download, k - 1);
      PausesAppend(BatchEffects(items, timestamp, download, k - 1), item);
      ItemEffectsShape(items, timestamp, download, k - 1);
    }
  }

  /**
   * Delays come after each successful item except the last one: their number
   * is the number of successes among the first n-1 items, so at most n-1.
   */
  lemma BatchPauses(items: seq<BatchItem>, timestamp: nat, download: DownloadCall -> DownloadResult)
    requires items != []
    ensures var n := |items|;
      Pauses(BatchEffects(items, timestamp, download, n)) == |BatchIds(items, timestamp, download, n - 1)| &&
      Pauses(BatchEffects(items, timestamp, download, n)) <= n - 1
  {
    var n := |items|;
    PausesBeforeLast(items, timestamp, download, n - 1);
    var last := ItemEffects(items, timestamp, download, n - 1);
    PausesAppend(BatchEffects(items, timestamp, download, n - 1), last);
    ItemEffectsShape(items, timestamp, download, n - 1);
  }

  /** One iteration of the batch loop, in terms of the call it makes. */
  lemma BatchStep(items: seq<BatchItem>, timestamp: nat, download: DownloadCall -> DownloadResult, i: nat)
    requires i < |items|
    ensures var result := download(BatchCall(items, timestamp, i));
      BatchIds(items, timestamp, download, i + 1) ==
        BatchIds(items, timestamp, download, i) + (if result.Started? then [result.id] else [])
    ensures var call := BatchCall(items, timestamp, i);
      BatchEffects(items, timestamp, download, i + 1) ==
        BatchEffects(items, timestamp, download, i) + [Download(call)] +
        (if download(call).Started? && i < |items| - 1 then [Pause(BatchDelayMs)] else [])
  {
  }

  /**
   * handleMultipleImageDownload: every item is attempted in order under its
   * batch name; a failure is skipped; a delay follows each success that is
   * not the last item; the reply counts the successes against the request.
   */
  method HandleMultipleImageDownload(imagesData: seq<BatchItem>, timestamp: nat, download: DownloadCall -> DownloadResult)
    returns (reply: Response, effects: seq<Effect>)
    ensures reply == BatchDone(BatchIds(imagesData, timestamp, download, |imagesData|),
                               |BatchIds(imagesData, timestamp, download, |imagesData|)|, Some(|imagesData|))
    ensures reply.totalDownloaded <= |imagesData|
    ensures effects == BatchEffects(imagesData, timestamp, download, |imagesData|)
  {
    var downloadIds: seq<nat> := [];
    effects := [];
    for i := 0 to |imagesData|
      invariant downloadIds == BatchIds(imagesData, timestamp, download, i)
      invariant effects == BatchEffects(imagesData, timestamp, download, i)
    {
      var image := imagesData[i];
      var call := DownloadCall(image.url, BatchFilename(timestamp, i, image));
      BatchStep(imagesData, timestamp, download, i);
      effects := effects + [Download(call)];
      match download(call) {
        case Started(downloadId) =>
          downloadIds := downloadIds + [downloadId];
          if i < |imagesData| - 1 {
            effects := effects + [Pause(BatchDelayMs)];
          }
        case Failed(_) =>
      }
    }
    reply := BatchDone(downloadIds, |downloadIds|, Some(|imagesData|));
  }

  /** Five items of which the third fails: four downloads are reported and three delays made. */
  lemma FiveItemsThirdFails(items: seq<BatchItem>, timestamp: nat, download: DownloadCall -> DownloadResult)
    requires |items| == 5
    requires forall i :: 0 <= i < 5 && i != 2 ==> download(BatchCall(items, timestamp, i)).Started?
    requires download(BatchCall(items, timestamp, 2)).Failed?
    ensures |BatchIds(items, timestamp, download, 5)| == 4
    ensures Pauses(BatchEffects(items, timestamp, download, 5)) == 3
  {
    assert download(BatchCall(items, timestamp, 0)).Started?;
    assert |BatchIds(items, timestamp, download, 1)| == 1;
    assert download(BatchCall(items, timestamp, 1)).Started?;
    assert |BatchIds(items, timestamp, download, 2)| == 2;
    assert |BatchIds(items, timestamp, download, 3)| == 2;
    assert download(BatchCall(items, timestamp, 3)).Started?;
    assert |BatchIds(items, timestamp, download, 4)| == 3;
    assert download(BatchCall(items, timestamp, 4)).Started?;
    BatchPauses(items, timestamp, download);
  }

  // ---------------------------------------------------------------------------
  // Stored scan (handleGetStoredImages)
  // ---------------------------------------------------------------------------

  const StoredScanKeys: set<string> := {"detectedImages", "groupedImages", "pageUrl", "pageTitle"}

  /** The reply to getStoredImages: the four keys the content script writes, as far as they are stored. */
  function HandleGetStoredImages(read: StorageRead): (reply: Response)
    ensures read.ReadFailed? ==> reply == Failure(read.message)
    ensures read.ReadOk? ==>
      (reply.StoredImages? && reply.data.Keys == read.items.Keys * StoredScanKeys &&
       forall k :: k in reply.data ==> reply.data[k] == read.items[k])
  {
    match read
    case ReadFailed(message) => Failure(message)
    case ReadOk(items) => StoredImages(map k | k in items && k in StoredScanKeys :: items[k])
  }

  // ---------------------------------------------------------------------------
  // Dispatch
  // ---------------------------------------------------------------------------

  /**
   * The runtime message listener. `now` is the clock reading, `download` the
   * browser's download call and `storage` the outcome of reading local
   * storage. The listener keeps the channel open for the four known
   * actions; it answers every other action at once with an error.
   */
  method OnMessage(request: Message, now: nat, download: DownloadCall -> DownloadResult, storage: StorageRead)
    returns (reply: Option<Response>, effects: seq<Effect>, keepOpen: bool)
    ensures keepOpen <==> request.action in KnownActions
    ensures reply.None? <==> request.action == "openViewer"
    ensures request.action !in KnownActions ==> reply == Some(Failure(UnknownActionError)) && effects == []
    ensures request.action == "openViewer" ==> effects == [OpenViewerTab]
    ensures request.action == "downloadImage" ==>
      reply == Some(HandleImageDownload(request.payload, now, download).0) &&
      effects == HandleImageDownload(request.payload, now, download).1
    ensures request.action == "downloadMultipleImages" && request.payload.Batch? ==>
      reply == Some(BatchDone(BatchIds(request.payload.items, now, download, |request.payload.items|),
                              |BatchIds(request.payload.items, now, download, |request.payload.items|)|,
                              Some(|request.payload.items|))) &&
      effects == BatchEffects(request.payload.items, now, download, |request.payload.items|)
    ensures request.action == "downloadMultipleImages" && request.payload.Single? ==>
      reply == Some(BatchDone([], 0, None)) && effects == []
    ensures request.action == "downloadMultipleImages" && request.payload.NoData? ==>
      reply == Some(Failure(InvalidDataError)) && effects == []
    ensures request.action == "getStoredImages" ==> reply == Some(HandleGetStoredImages(storage)) && effects == []
  {
    effects := [];
    if request.action == "downloadImage" {
      var out := HandleImageDownload(request.payload, now, download);
      reply, effects, keepOpen := Some(out.0), out.1, true;
    } else if request.action == "downloadMultipleImages" {
      if request.payload.Batch? {
        var response;
        response, effects := HandleMultipleImageDownload(request.payload.items, now, download);
        reply := Some(response);
      } else if request.payload.Single? {
        // an object has no length: the loop is skipped and the reply counts nothing
        reply := Some(BatchDone([], 0, None));
      } else {
        reply := Some(Failure(InvalidDataError));
      }
      keepOpen := true;
    } else if request.action == "getStoredImages" {
      reply, keepOpen := Some(HandleGetStoredImages(storage)), true;
    } else if request.action == "openViewer" {
      reply, effects, keepOpen := None, [OpenViewerTab], true;
    } else {
      reply, keepOpen := Some(Failure(UnknownActionError)), false;
    }
  }

  // ---------------------------------------------------------------------------
  // sanitizeFilename
  // ---------------------------------------------------------------------------

  /** The characters `<>:"/\|?*` that are replaced by '_'. */
  predicate IsForbidden(c: char) {
    c == '<' || c == '>' || c == ':' || c == '"' || c == '/' || c == '\\' || c == '|' || c == '?' || c == '*'
  }

  /** The characters of the regular-expression class `\s` (ECMAScript white space and line terminators). */
  const WhitespaceChars: set<char> :=
    {'\t', '\n', '\U{000B}', '\U{000C}', '\r', ' ', '\U{00A0}', '\U{1680}',
     '\U{2000}', '\U{2001}', '\U{2002}', '\U{2003}', '\U{2004}', '\U{2005}', '\U{2006}',
     '\U{2007}', '\U{2008}', '\U{2009}', '\U{200A}',
     '\U{2028}', '\U{2029}', '\U{202F}', '\U{205F}', '\U{3000}', '\U{FEFF}'}

  predicate IsWhitespace(c: char) {
    c in WhitespaceChars
  }

  /** `replace(/[<>:"/\\|?*]/g, '_')`. */
  function ReplaceForbidden(s: string): (r: string)
    ensures |r| == |s|
    ensures forall c :: c in r ==> !IsForbidden(c)
    ensures forall i :: 0 <= i < |s| && !IsForbidden(s[i]) ==> r[i] == s[i]
    ensures forall i :: 0 <= i < |s| && IsForbidden(s[i]) ==> r[i] == '_'
  {
    seq(|s|, i requires 0 <= i < |s| => if IsForbidden(s[i]) then '_' else s[i])
  }

  /** `s` with its leading white space removed. */
  function DropWhitespace(s: string): (r: string)
    ensures |r| <= |s| && r == s[|s| - |r|..]
    ensures r == [] || !IsWhitespace(r[0])
    decreases |s|
  {
    if s != [] && IsWhitespace(s[0]) then DropWhitespace(s[1..]) else s
  }

  /** `replace(/\s+/g, '_')`: each maximal run of white space becomes one '_'. */
  function CollapseWhitespace(s: string): string
    decreases |s|
  {
    if s == [] then []
    else if IsWhitespace(s[0]) then "_" + CollapseWhitespace(DropWhitespace(s))
    else [s[0]] + CollapseWhitespace(s[1..])
  }

  /** The result has no white space, and each of its characters is '_' or comes from the input. */
  lemma {:induction false} CollapseClean(s: string)
    ensures forall c :: c in CollapseWhitespace(s) ==> !IsWhitespace(c) && (c in s || c == '_')
    decreases |s|
  {
    if s != [] {
      if IsWhitespace(s[0]) {
        var rest := DropWhitespace(s);
        CollapseClean(rest);
        assert forall c :: c in rest ==> c in s;
      } else {
        CollapseClean(s[1..]);
        assert forall c :: c in s[1..] ==> c in s;
      }
    }
  }

  function SanitizeFilename(filename: string): string {
    CollapseWhitespace(ReplaceForbidden(filename))
  }

  /** A sanitised name has no forbidden character and no white space. */
  lemma SanitizedIsClean(filename: string)
    ensures forall i :: 0 <= i < |SanitizeFilename(filename)| ==>
      !IsForbidden(SanitizeFilename(filename)[i]) && !IsWhitespace(SanitizeFilename(filename)[i])
  {
    CollapseClean(ReplaceForbidden(filename));
    var r := SanitizeFilename(filename);
    forall i | 0 <= i < |r| ensures !IsForbidden(r[i]) && !IsWhitespace(r[i]) {
      assert r[i] in r;
    }
  }

  lemma ReplaceForbiddenKeeps(s: string)
    requires forall i :: 0 <= i < |s| ==> !IsForbidden(s[i])
    ensures ReplaceForbidden(s) == s
  {
  }

  lemma {:induction false} CollapseKeeps(s: string)
    requires forall i :: 0 <= i < |s| ==> !IsWhitespace(s[i])
    ensures CollapseWhitespace(s) == s
    decreases |s|
  {
    if s != [] {
      CollapseKeeps(s[1..]);
    }
  }

  /** A name without forbidden characters and white space is left as it is. */
  lemma SanitizeKeepsClean(filename: string)
    requires forall i :: 0 <= i < |filename| ==> !IsForbidden(filename[i]) && !IsWhitespace(filename[i])
    ensures SanitizeFilename(filename) == filename
  {
    ReplaceForbiddenKeeps(filename);
    CollapseKeeps(filename);
  }

  /** Sanitising twice is sanitising once. */
  lemma SanitizeIdempotent(filename: string)
    ensures SanitizeFilename(SanitizeFilename(filename)) == SanitizeFilename(filename)
  {
    SanitizedIsClean(filename);
    SanitizeKeepsClean(SanitizeFilename(filename));
  }

  /** Leading white space of a run followed by a non-white character is dropped entirely. */
  lemma {:induction false} DropRun(run: string, b: string)
    requires forall c :: c in run ==> IsWhitespace(c)
    requires b == [] || !IsWhitespace(b[0])
    ensures DropWhitespace(run + b) == b
    decreases |run|
  {
    if run == [] {
      assert run + b == b;
    } else {
      assert (run + b)[1..] == run[1..] + b;
      DropRun(run[1..], b);
    }
  }

  lemma CollapseCons(c: char, t: string)
    requires !IsWhitespace(c)
    ensures CollapseWhitespace([c] + t) == [c] + CollapseWhitespace(t)
  {
    assert ([c] + t)[1..] == t;
  }

  lemma CollapseRunFirst(run: string, b: string)
    requires run != [] && forall i :: 0 <= i < |run| ==> IsWhitespace(run[i])
    requires b == [] || !IsWhitespace(b[0])
    ensures CollapseWhitespace(run + b) == "_" + CollapseWhitespace(b)
  {
    assert (run + b)[0] == run[0];
    DropRun(run, b);
  }

  /** A part without white space is kept as it is in front of whatever follows. */
  lemma {:induction false} CollapsePrefix(a: string, t: string)
    requires forall c :: c in a ==> !IsWhitespace(c)
    ensures CollapseWhitespace(a + t) == a + CollapseWhitespace(t)
    decreases |a|
  {
    if a == [] {
      assert a + t == t;
    } else {
      var rest := a[1..];
      assert a + t == [a[0]] + (rest + t);
      assert a[0] in a;
      CollapseCons(a[0], rest + t);
      assert forall c :: c in rest ==> c in a;
      CollapsePrefix(rest, t);
      assert a == [a[0]] + rest;
    }
  }

  /**
   * A maximal run of white space between a part without white space and a
   * part that does not start with white space becomes exactly one '_'.
   */
  lemma CollapseRun(a: string, run: string, b: string)
    requires forall c :: c in a ==> !IsWhitespace(c)
    requires run != [] && forall i :: 0 <= i < |run| ==> IsWhitespace(run[i])
    requires b == [] || !IsWhitespace(b[0])
    ensures CollapseWhitespace(a + run + b) == a + "_" + CollapseWhitespace(b)
  {
    ConcatAssoc(a, run, b);
    CollapsePrefix(a, run + b);
    CollapseRunFirst(run, b);
    ConcatAssoc(a, "_", CollapseWhitespace(b));
  }

  // ---------------------------------------------------------------------------
  // Storage cleanup (cleanOldStorageData)
  // ---------------------------------------------------------------------------

  const OneDayMs: int := 24 * 60 * 60 * 1000

  /** A temporary entry with a timestamp older than one day. */
  predicate IsStale(key: string, value: StoredValue, now: int) {
    StartsWith(key, "temp_") && value.ObjectValue? && value.timestamp != 0 && now - value.timestamp > OneDayMs
  }

  /** Reading `timestamp` of a null value under a temporary key throws, which ends the cleanup. */
  predicate Throws(key: string, value: StoredValue) {
    StartsWith(key, "temp_") && value.NullValue?
  }

  /** The stale keys among `entries`, in entry order. */
  function StaleKeys(entries: seq<(string, StoredValue)>, now: int): (keys: seq<string>)
    ensures forall k :: k in keys <==> exists i :: 0 <= i < |entries| && entries[i].0 == k && IsStale(k, entries[i].1, now)
    decreases |entries|
  {
    if entries == [] then []
    else
      var n := |entries| - 1;
      var earlier := StaleKeys(entries[..n], now);
      assert forall i :: 0 <= i < n ==> entries[..n][i] == entries[i];
      earlier + (if IsStale(entries[n].0, entries[n].1, now) then [entries[n].0] else [])
  }

  /**
   * The keys cleanOldStorageData removes, given the stored entries in
   * iteration order: the stale keys, or none when reading an entry throws.
   */
  method CleanOldStorageData(entries: seq<(string, StoredValue)>, now: int) returns (removed: seq<string>)
    ensures (exists i :: 0 <= i < |entries| && Throws(entries[i].0, entries[i].1)) ==> removed == []
    ensures (forall i :: 0 <= i < |entries| ==> !Throws(entries[i].0, entries[i].1)) ==> removed == StaleKeys(entries, now)
  {
    var keysToRemove: seq<string> := [];
    for i := 0 to |entries|
      invariant keysToRemove == StaleKeys(entries[..i], now)
      invariant forall j :: 0 <= j < i ==> !Throws(entries[j].0, entries[j].1)
    {
      var (key, value) := entries[i];
      if StartsWith(key, "temp_") {
        if value.NullValue? {
          return [];
        }
        if value.ObjectValue? && value.timestamp != 0 && now - value.timestamp > OneDayMs {
          keysToRemove := keysToRemove + [key];
        }
      }
      assert entries[..i + 1][..i] == entries[..i];
    }
    assert entries[..|entries|] == entries;
    removed := keysToRemove;
  }
}
