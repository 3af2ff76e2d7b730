/**
 * The content script: classification of an image source by its extension,
 * the scan of the page's <img> elements, the grouping of the descriptors by
 * dimensions and the two replies the script gives to the other contexts.
 */
module Content {
  import opened Strings

  // ---------------------------------------------------------------------------
  // Image type (getImageType)
  // ---------------------------------------------------------------------------

  datatype ImageType = Jpeg | Png | Gif | Webp | Svg | Bmp | Unknown

  /** The tag string stored in a descriptor's `type` field. */
  function TypeName(t: ImageType): string {
    match t
    case Jpeg => "JPEG"
    case Png => "PNG"
    case Gif => "GIF"
    case Webp => "WEBP"
    case Svg => "SVG"
    case Bmp => "BMP"
    case Unknown => "UNKNOWN"
  }

  /** The extensions that select each tag. */
  function ExtensionsOf(t: ImageType): set<string> {
    match t
    case Jpeg => {"jpg", "jpeg"}
    case Png => {"png"}
    case Gif => {"gif"}
    case Webp => {"webp"}
    case Svg => {"svg"}
    case Bmp => {"bmp"}
    case Unknown => {}
  }

  const KnownExtensions: set<string> := {"jpg", "jpeg", "png", "gif", "webp", "svg", "bmp"}

  /** The known extensions are exactly the extensions of the seven tags. */
  lemma KnownExtensionsOfTags()
    ensures KnownExtensions == ExtensionsOf(Jpeg) + ExtensionsOf(Png) + ExtensionsOf(Gif) +
      ExtensionsOf(Webp) + ExtensionsOf(Svg) + ExtensionsOf(Bmp)
    ensures ExtensionsOf(Unknown) == {}
  {
  }

  /**
   * The text the classification switches on: the last piece of the source
   * split at '.', lower-cased, then cut at its first '?'.
   */
  function ExtensionOf(src: string): (ext: string)
    ensures '.' !in ext && '?' !in ext
  {
    var last := AfterLast(src, '.');
    ToLowerKeeps(last, '.');
    BeforeFirst(ToLower(last), '?')
  }

  /** The switch of getImageType over the extension text. */
  function TagOf(ext: string): (t: ImageType)
    ensures t == Unknown <==> ext !in KnownExtensions
    ensures ext in ExtensionsOf(t) || t == Unknown
  {
    if ext == "jpg" || ext == "jpeg" then Jpeg
    else if ext == "png" then Png
    else if ext == "gif" then Gif
    else if ext == "webp" then Webp
    else if ext == "svg" then Svg
    else if ext == "bmp" then Bmp
    else Unknown
  }

  function GetImageType(src: string): (t: ImageType)
    ensures t == Unknown <==> ExtensionOf(src) !in KnownExtensions
    ensures ExtensionOf(src) in ExtensionsOf(t) || t == Unknown
  {
    TagOf(ExtensionOf(src))
  }

  /** The extension text of "<stem>.<ext>" is <ext> lower-cased. */
  lemma ExtensionOfName(stem: string, ext: string)
    requires '.' !in ext && '?' !in ext
    ensures ExtensionOf(stem + "." + ext) == ToLower(ext)
  {
    ToLowerKeeps(ext, '?');
    assert stem + "." + ext == stem + ['.'] + ext;
    AfterLastOf(stem, '.', ext);
  }

  lemma AfterLastDotWithQuery(stem: string, ext: string, query: string)
    requires '.' !in ext && '.' !in query
    ensures AfterLast(stem + "." + ext + "?" + query, '.') == ext + ['?'] + query
  {
    var tail := ext + ['?'] + query;
    NoDotInQueryTail(ext, query);
    ConcatAssoc(stem + ['.'], ext, ['?']);
    ConcatAssoc(stem + ['.'], ext + ['?'], query);
    AfterLastOf(stem, '.', tail);
  }

  lemma NoDotInQueryTail(ext: string, query: string)
    requires '.' !in ext && '.' !in query
    ensures '.' !in ext + ['?'] + query
  {
    var tail := ext + ['?'] + query;
    assert forall i :: 0 <= i < |tail| ==> tail[i] == (if i < |ext| then ext[i] else if i == |ext| then '?' else query[i - |ext| - 1]);
  }

  lemma LowerCutAtQuery(ext: string, query: string)
    requires '?' !in ext
    ensures SplitAtFirst(ToLower(ext + ['?'] + query), '?') == Some((ToLower(ext), ToLower(query)))
  {
    ToLowerKeeps(ext, '?');
    assert ToLower(ext + ['?'] + query) == ToLower(ext) + ['?'] + ToLower(query);
    SplitAtFirstOf(ToLower(ext), '?', ToLower(query));
  }

  /** The extension text of "<stem>.<ext>?<query>" is <ext> lower-cased when the query has no '.'. */
  lemma ExtensionOfNameWithQuery(stem: string, ext: string, query: string)
    requires '.' !in ext && '?' !in ext && '.' !in query
    ensures ExtensionOf(stem + "." + ext + "?" + query) == ToLower(ext)
  {
    AfterLastDotWithQuery(stem, ext, query);
    LowerCutAtQuery(ext, query);
  }

  /**
   * A file name ending in ".<ext>", possibly followed by a query without a
   * '.', is classified by <ext> in any letter case.
   */
  lemma ClassifiedByTrailingExtension(stem: string, ext: string, query: string)
    requires '.' !in ext && '?' !in ext && '.' !in query
    ensures GetImageType(stem + "." + ext) == TagOf(ToLower(ext))
    ensures GetImageType(stem + "." + ext + "?" + query) == TagOf(ToLower(ext))
  {
    ExtensionOfName(stem, ext);
    ExtensionOfNameWithQuery(stem, ext, query);
  }

  /** No known extension is shorter than three characters. */
  lemma ShortExtensionIsUnknown(ext: string)
    requires |ext| < 3
    ensures TagOf(ext) == Unknown
  {
    assert ext != "jpg" && ext != "jpeg" && ext != "png" && ext != "gif" && ext != "webp" && ext != "svg" && ext != "bmp";
  }

  /** No known extension starts with 'h' or 'd'. */
  lemma LeadingLetterIsUnknown(ext: string)
    requires ext != [] && (ext[0] == 'h' || ext[0] == 'd')
    ensures TagOf(ext) == Unknown
  {
  }

  /**
   * A fetchable source without a '.', such as a base64 "data:" URL, is
   * classified UNKNOWN: the whole source is the extension text.
   */
  lemma UndottedFetchableIsUnknown(src: string)
    requires '.' !in src && IsFetchable(src)
    ensures GetImageType(src) == Unknown
  {
    AfterLastWithout(src, '.');
    FetchableStart(src);
    var lower := ToLower(src);
    assert lower[0] == src[0];
    BeforeFirstHead(lower, '?');
    LeadingLetterIsUnknown(BeforeFirst(lower, '?'));
  }

  lemma FetchableStart(src: string)
    requires IsFetchable(src)
    ensures src != [] && (src[0] == 'h' || src[0] == 'd')
  {
    assert StartsWith(src, "http") ==> src[..4][0] == 'h';
    assert StartsWith(src, "data:") ==> src[..5][0] == 'd';
  }

  /**
   * A '.' inside the query hides the extension: the text after the query's
   * last '.' is classified, so "a.png?v=1.2" is not a PNG.
   */
  lemma QueryWithDotIsUnknown()
    ensures GetImageType("a.png?v=1.2") == Unknown
  {
    ExampleQuerySplit();
    ExtensionOfName("a.png?v=1", "2");
    ShortExtensionIsUnknown(ToLower("2"));
  }

  lemma ExampleQuerySplit()
    ensures "a.png?v=1" + "." + "2" == "a.png?v=1.2"
    ensures '.' !in "2" && '?' !in "2"
  {
  }

  /** The lower-cased tag of every type is an extension classified as that type again. */
  lemma TypeNameRoundTrip(t: ImageType)
    ensures TagOf(ToLower(TypeName(t))) == t
  {
    var ext := ToLower(TypeName(t));
    match t
    case Jpeg => assert ext == "jpeg";
    case Png => assert ext == "png";
    case Gif => assert ext == "gif";
    case Webp => assert ext == "webp";
    case Svg => assert ext == "svg";
    case Bmp => assert ext == "bmp";
    case Unknown => assert ext == "unknown";
  }

  // ---------------------------------------------------------------------------
  // Scanning the page (detectImages)
  // ---------------------------------------------------------------------------

  /**
   * What the scan reads of an <img> element. `dataSrc` is the data-src
   * attribute (read both through `dataset.src` and `getAttribute`); an
   * absent or empty attribute is "", an absent or zero size is 0.
   */
  datatype ImgElement = ImgElement(
    src: string, dataSrc: string, alt: string,
    naturalWidth: nat, naturalHeight: nat, width: nat, height: nat)

  datatype ImageDescriptor = ImageDescriptor(
    id: string, src: string, alt: string, width: nat, height: nat, imageType: ImageType)

  function ResolvedSource(e: ImgElement): string {
    if e.src != "" then e.src else e.dataSrc
  }

  predicate IsFetchable(src: string) {
    StartsWith(src, "http") || StartsWith(src, "data:")
  }

  function EffectiveWidth(e: ImgElement): nat {
    if e.naturalWidth != 0 then e.naturalWidth else e.width
  }

  function EffectiveHeight(e: ImgElement): nat {
    if e.naturalHeight != 0 then e.naturalHeight else e.height
  }

  /** The scan keeps an element with a network or inline-data source and both sizes above 1. */
  predicate Kept(e: ImgElement) {
    var src := ResolvedSource(e);
    src != "" && IsFetchable(src) && EffectiveWidth(e) > 1 && EffectiveHeight(e) > 1
  }

  function ImageId(index: nat): string {
    "img_" + NatToString(index)
  }

  /** The element position an id names, or -1 for a string that is not an id. */
  function IdIndex(id: string): int {
    match StripPrefix(id, "img_")
    case None => -1
    case Some(digits) =>
      match ParseNat(digits)
      case None => -1
      case Some(n) => n
  }

  lemma ImageIdRoundTrip(index: nat)
    ensures IdIndex(ImageId(index)) == index
  {
    StripPrefixOf("img_", NatToString(index));
    ParseNatOfNatToString(index);
  }

  function Describe(e: ImgElement, index: nat): (d: ImageDescriptor) {
    var src := ResolvedSource(e);
    ImageDescriptor(ImageId(index), src, e.alt, EffectiveWidth(e), EffectiveHeight(e), GetImageType(src))
  }

  /** The descriptors of the kept elements, in document order. */
  function Scan(elements: seq<ImgElement>): seq<ImageDescriptor>
    decreases |elements|
  {
    if elements == [] then []
    else
      var n := |elements| - 1;
      Scan(elements[..n]) + (if Kept(elements[n]) then [Describe(elements[n], n)] else [])
  }

  predicate DistinctIds(images: seq<ImageDescriptor>) {
    forall p, q :: 0 <= p < q < |images| ==> images[p].id != images[q].id
  }

  /** The descriptor of a kept element has both sizes above 1, a fetchable source and an id naming its position. */
  lemma DescribeSound(e: ImgElement, index: nat)
    requires Kept(e)
    ensures var d := Describe(e, index);
      d.width > 1 && d.height > 1 && IsFetchable(d.src) && IdIndex(d.id) == index
  {
    ImageIdRoundTrip(index);
  }

  /** Every descriptor comes from a kept element at the position its id names. */
  lemma {:induction false} ScanSound(elements: seq<ImgElement>)
    ensures forall d :: d in Scan(elements) ==>
      d.width > 1 && d.height > 1 && IsFetchable(d.src) &&
      0 <= IdIndex(d.id) < |elements| &&
      Kept(elements[IdIndex(d.id)]) && d == Describe(elements[IdIndex(d.id)], IdIndex(d.id))
    decreases |elements|
  {
    if elements != [] {
      var n := |elements| - 1;
      var pre := elements[..n];
      ScanSound(pre);
      forall d | d in Scan(elements)
        ensures d.width > 1 && d.height > 1 && IsFetchable(d.src) &&
          0 <= IdIndex(d.id) < |elements| &&
          Kept(elements[IdIndex(d.id)]) && d == Describe(elements[IdIndex(d.id)], IdIndex(d.id))
      {
        if d in Scan(pre) {
          assert elements[IdIndex(d.id)] == pre[IdIndex(d.id)];
        } else {
          DescribeSound(elements[n], n);
        }
      }
    }
  }

  /** What the scan of a prefix finds, the scan of the whole finds too. */
  lemma {:induction false} ScanPrefix(elements: seq<ImgElement>, k: nat)
    requires k <= |elements|
    ensures forall d :: d in Scan(elements[..k]) ==> d in Scan(elements)
    decreases |elements| - k
  {
    if k == |elements| {
      assert elements[..k] == elements;
    } else {
      ScanStep(elements[..k], elements[k]);
      PrefixStep(elements, k);
      ScanPrefix(elements, k + 1);
    }
  }

  lemma ScanFindsLast(elements: seq<ImgElement>, i: nat)
    requires i < |elements| && Kept(elements[i])
    ensures Describe(elements[i], i) in Scan(elements[..i + 1])
  {
    var upTo := elements[..i + 1];
    assert upTo[i] == elements[i];
  }

  /** Every kept element is described. */
  lemma ScanComplete(elements: seq<ImgElement>)
    ensures forall i :: 0 <= i < |elements| && Kept(elements[i]) ==> Describe(elements[i], i) in Scan(elements)
  {
    forall i | 0 <= i < |elements| && Kept(elements[i])
      ensures Describe(elements[i], i) in Scan(elements)
    {
      ScanFindsLast(elements, i);
      ScanPrefix(elements, i + 1);
    }
  }

  /** Ids name strictly increasing element positions: they are in document order and distinct. */
  lemma {:induction false} ScanIdsInDocumentOrder(elements: seq<ImgElement>)
    ensures forall p, q :: 0 <= p < q < |Scan(elements)| ==> IdIndex(Scan(elements)[p].id) < IdIndex(Scan(elements)[q].id)
    ensures DistinctIds(Scan(elements))
    decreases |elements|
  {
    if elements != [] {
      var n := |elements| - 1;
      var before := Scan(elements[..n]);
      ScanIdsInDocumentOrder(elements[..n]);
      if Kept(elements[n]) {
        var d := Describe(elements[n], n);
        var after := before + [d];
        assert Scan(elements) == after;
        ScanSound(elements[..n]);
        DescribeSound(elements[n], n);
        forall p, q | 0 <= p < q < |after|
          ensures IdIndex(after[p].id) < IdIndex(after[q].id)
        {
          if q == |before| {
            assert after[p] == before[p] && before[p] in before;
          }
        }
      }
    }
  }

  /** A 1x2 element is dropped, a 2x2 element is kept. */
  lemma SizeBoundary(src: string)
    requires IsFetchable(src)
    ensures Scan([ImgElement(src, "", "", 1, 2, 0, 0)]) == []
    ensures Scan([ImgElement(src, "", "", 2, 2, 0, 0)]) == [Describe(ImgElement(src, "", "", 2, 2, 0, 0), 0)]
  {
    var tiny := [ImgElement(src, "", "", 1, 2, 0, 0)];
    var small := [ImgElement(src, "", "", 2, 2, 0, 0)];
    assert tiny[..0] == [] && small[..0] == [];
  }

  /** Scanning one more element appends its descriptor when it is kept. */
  lemma ScanStep(pre: seq<ImgElement>, e: ImgElement)
    ensures Scan(pre + [e]) == Scan(pre) + (if Kept(e) then [Describe(e, |pre|)] else [])
  {
    assert (pre + [e])[..|pre|] == pre;
  }

  method DetectImages(elements: seq<ImgElement>) returns (images: seq<ImageDescriptor>)
    ensures images == Scan(elements)
    ensures forall d :: d in images ==> d.width > 1 && d.height > 1 && IsFetchable(d.src)
    ensures DistinctIds(images)
  {
    images := [];
    ghost var done: seq<ImgElement> := [];  // the elements scanned so far
    for index := 0 to |elements|
      invariant done == elements[..index]
      invariant images == Scan(done)
    {
      var img := elements[index];
      var imgSrc := if img.src != "" then img.src else img.dataSrc;
      if imgSrc != "" && (StartsWith(imgSrc, "http") || StartsWith(imgSrc, "data:")) {
        var width := if img.naturalWidth != 0 then img.naturalWidth else img.width;
        var height := if img.naturalHeight != 0 then img.naturalHeight else img.height;
        var imageData := ImageDescriptor(ImageId(index), imgSrc, img.alt, width, height, GetImageType(imgSrc));
        if imageData.width > 1 && imageData.height > 1 {
          images := images + [imageData];
        }
      }
      ScanStep(done, img);
      PrefixStep(elements, index);
      done := done + [img];
    }
    assert done == elements;
    ScanSound(elements);
    ScanIdsInDocumentOrder(elements);
  }

  // ---------------------------------------------------------------------------
  // Grouping by dimensions (groupImagesByDimensions)
  // ---------------------------------------------------------------------------

  /** The dictionary key `${width}x${height}`. */
  function DimensionKey(width: nat, height: nat): string {
    NatToString(width) + "x" + NatToString(height)
  }

  function KeyOf(image: ImageDescriptor): string {
    DimensionKey(image.width, image.height)
  }

  function ParseDimensionKey(key: string): Option<(nat, nat)> {
    match SplitAtFirst(key, 'x')
    case None => None
    case Some((w, h)) =>
      match (ParseNat(w), ParseNat(h))
      case (Some(width), Some(height)) => Some((width, height))
      case _ => None
  }

  lemma NoLetterInDigits(s: string, c: char)
    requires AllDigits(s) && !IsDigit(c)
    ensures c !in s
  {
  }

  lemma DimensionKeyRoundTrip(width: nat, height: nat)
    ensures ParseDimensionKey(DimensionKey(width, height)) == Some((width, height))
  {
    var w, h := NatToString(width), NatToString(height);
    NoLetterInDigits(w, 'x');
    assert DimensionKey(width, height) == w + ['x'] + h;
    SplitAtFirstOf(w, 'x', h);
    ParseNatOfNatToString(width);
    ParseNatOfNatToString(height);
  }

  /** Two sizes share a dictionary key only if they are equal. */
  lemma DimensionKeyInjective(w1: nat, h1: nat, w2: nat, h2: nat)
    requires DimensionKey(w1, h1) == DimensionKey(w2, h2)
    ensures w1 == w2 && h1 == h2
  {
    DimensionKeyRoundTrip(w1, h1);
    DimensionKeyRoundTrip(w2, h2);
  }

  datatype ImageGroup = ImageGroup(dimension: string, width: nat, height: nat, images: seq<ImageDescriptor>)

  /** The images whose key is `key`, in input order: what the dictionary collects under `key`. */
  function MembersWithKey(images: seq<ImageDescriptor>, key: string): (members: seq<ImageDescriptor>)
    ensures forall m :: m in members ==> m in images && KeyOf(m) == key
    ensures forall m :: m in images && KeyOf(m) == key ==> m in members
    ensures |members| <= |images|
    decreases |images|
  {
    if images == [] then []
    else
      var n := |images| - 1;
      assert images == images[..n] + [images[n]];
      MembersWithKey(images[..n], key) + (if KeyOf(images[n]) == key then [images[n]] else [])
  }

  lemma MembersAppend(images: seq<ImageDescriptor>, x: ImageDescriptor, key: string)
    ensures MembersWithKey(images + [x], key) == MembersWithKey(images, key) + (if KeyOf(x) == key then [x] else [])
  {
    assert (images + [x])[..|images|] == images;
  }

  /** The distinct keys of the images in order of first occurrence: the dictionary's insertion order. */
  function FirstSeenKeys(images: seq<ImageDescriptor>): (keys: seq<string>)
    ensures forall i, j :: 0 <= i < j < |keys| ==> keys[i] != keys[j]
    ensures forall k :: k in keys <==> MembersWithKey(images, k) != []
    decreases |images|
  {
    if images == [] then []
    else
      var n := |images| - 1;
      var seen := FirstSeenKeys(images[..n]);
      assert images == images[..n] + [images[n]];
      FirstSeenFacts(images[..n], images[n], seen);
      if KeyOf(images[n]) in seen then seen else seen + [KeyOf(images[n])]
  }

  /** Appending the key of one more image on first sight keeps the keys distinct and complete. */
  lemma FirstSeenFacts(pre: seq<ImageDescriptor>, x: ImageDescriptor, seen: seq<string>)
    requires forall i, j :: 0 <= i < j < |seen| ==> seen[i] != seen[j]
    requires forall k :: k in seen <==> MembersWithKey(pre, k) != []
    ensures var keys := if KeyOf(x) in seen then seen else seen + [KeyOf(x)];
      && (forall i, j :: 0 <= i < j < |keys| ==> keys[i] != keys[j])
      && (forall k :: k in keys <==> MembersWithKey(pre + [x], k) != [])
  {
    var keys := if KeyOf(x) in seen then seen else seen + [KeyOf(x)];
    forall k ensures k in keys <==> MembersWithKey(pre + [x], k) != [] {
      MembersAppend(pre, x, k);
    }
    if KeyOf(x) !in seen {
      assert forall i :: 0 <= i < |seen| ==> seen[i] != KeyOf(x);
    }
  }

  /** The group the dictionary holds under `key`: the first member's size and all members in input order. */
  function GroupOf(images: seq<ImageDescriptor>, key: string): (g: ImageGroup)
    requires MembersWithKey(images, key) != []
  {
    var members := MembersWithKey(images, key);
    ImageGroup(key, members[0].width, members[0].height, members)
  }

  /** `Object.values` of the filled dictionary: one group per key, in first-seen key order. */
  function Bucketed(images: seq<ImageDescriptor>): (groups: seq<ImageGroup>)
    ensures |groups| == |FirstSeenKeys(images)|
    ensures forall i :: 0 <= i < |groups| ==> groups[i].dimension == FirstSeenKeys(images)[i]
  {
    var keys := FirstSeenKeys(images);
    seq(|keys|, i requires 0 <= i < |keys| => GroupOf(images, keys[i]))
  }

  /** Places `g` before the first group that is not larger: one step of a stable descending sort. */
  function Insert(g: ImageGroup, sorted: seq<ImageGroup>): seq<ImageGroup>
    decreases |sorted|
  {
    if sorted == [] || |g.images| >= |sorted[0].images| then [g] + sorted
    else [sorted[0]] + Insert(g, sorted[1..])
  }

  /** The runtime's stable sort with the comparator `b.images.length - a.images.length`. */
  function SortBySize(groups: seq<ImageGroup>): seq<ImageGroup>
    decreases |groups|
  {
    if groups == [] then [] else Insert(groups[0], SortBySize(groups[1..]))
  }

  /** The result of groupImagesByDimensions. */
  function Grouping(images: seq<ImageDescriptor>): seq<ImageGroup> {
    SortBySize(Bucketed(images))
  }

  predicate SortedBySize(groups: seq<ImageGroup>) {
    forall i, j :: 0 <= i < j < |groups| ==> |groups[i].images| >= |groups[j].images|
  }

  predicate DistinctDimensions(groups: seq<ImageGroup>) {
    forall i, j :: 0 <= i < j < |groups| ==> groups[i].dimension != groups[j].dimension
  }

  /** The groups with exactly `n` members, in their order. */
  function WithSize(groups: seq<ImageGroup>, n: nat): seq<ImageGroup>
    decreases |groups|
  {
    if groups == [] then []
    else (if |groups[0].images| == n then [groups[0]] else []) + WithSize(groups[1..], n)
  }

  function TotalMembers(groups: seq<ImageGroup>): nat
    decreases |groups|
  {
    if groups == [] then 0 else |groups[0].images| + TotalMembers(groups[1..])
  }

  lemma {:induction false} InsertPermutes(g: ImageGroup, sorted: seq<ImageGroup>)
    ensures multiset(Insert(g, sorted)) == multiset([g] + sorted)
    decreases |sorted|
  {
    if !(sorted == [] || |g.images| >= |sorted[0].images|) {
      InsertPermutes(g, sorted[1..]);
      assert sorted == [sorted[0]] + sorted[1..];
    }
  }

  /** Every group of an insertion result is the inserted group or one of the others. */
  lemma InsertMembers(g: ImageGroup, sorted: seq<ImageGroup>)
    ensures forall h :: h in Insert(g, sorted) ==> h == g || h in sorted
  {
    InsertPermutes(g, sorted);
    forall h | h in Insert(g, sorted) ensures h == g || h in sorted {
      assert h in multiset(Insert(g, sorted));
    }
  }

  lemma {:induction false} InsertSorted(g: ImageGroup, sorted: seq<ImageGroup>)
    requires SortedBySize(sorted)
    ensures SortedBySize(Insert(g, sorted))
    decreases |sorted|
  {
    if !(sorted == [] || |g.images| >= |sorted[0].images|) {
      var head, rest := sorted[0], sorted[1..];
      InsertSorted(g, rest);
      InsertMembers(g, rest);
      var tail := Insert(g, rest);
      var r := [head] + tail;
      forall i, j | 0 <= i < j < |r| ensures |r[i].images| >= |r[j].images| {
        if i == 0 {
          assert r[j] in tail;
          assert r[j] != g ==> r[j] in rest;
        }
      }
    }
  }

  lemma {:induction false} InsertStable(g: ImageGroup, sorted: seq<ImageGroup>, n: nat)
    ensures WithSize(Insert(g, sorted), n) == WithSize([g] + sorted, n)
    decreases |sorted|
  {
    assert ([g] + sorted)[1..] == sorted;
    if !(sorted == [] || |g.images| >= |sorted[0].images|) {
      var head, rest := sorted[0], sorted[1..];
      InsertStable(g, rest, n);
      var r := [head] + Insert(g, rest);
      assert r[1..] == Insert(g, rest);
      assert ([g] + rest)[1..] == rest;
    }
  }

  lemma {:induction false} InsertTotal(g: ImageGroup, sorted: seq<ImageGroup>)
    ensures TotalMembers(Insert(g, sorted)) == |g.images| + TotalMembers(sorted)
    decreases |sorted|
  {
    assert ([g] + sorted)[1..] == sorted;
    if !(sorted == [] || |g.images| >= |sorted[0].images|) {
      InsertTotal(g, sorted[1..]);
      assert ([sorted[0]] + Insert(g, sorted[1..]))[1..] == Insert(g, sorted[1..]);
    }
  }

  lemma {:induction false} InsertDistinct(g: ImageGroup, sorted: seq<ImageGroup>)
    requires DistinctDimensions(sorted)
    requires forall h :: h in sorted ==> h.dimension != g.dimension
    ensures DistinctDimensions(Insert(g, sorted))
    decreases |sorted|
  {
    if !(sorted == [] || |g.images| >= |sorted[0].images|) {
      var head, rest := sorted[0], sorted[1..];
      InsertDistinct(g, rest);
      InsertMembers(g, rest);
      var tail := Insert(g, rest);
      var r := [head] + tail;
      forall i, j | 0 <= i < j < |r| ensures r[i].dimension != r[j].dimension {
        if i == 0 {
          assert r[j] in tail;
          if r[j] != g {
            var k :| 0 <= k < |rest| && rest[k] == r[j];
            assert sorted[k + 1] == r[j];
          }
        }
      }
    }
  }

  /** The sort is a permutation. */
  lemma {:induction false} SortPermutes(groups: seq<ImageGroup>)
    ensures multiset(SortBySize(groups)) == multiset(groups)
    decreases |groups|
  {
    if groups != [] {
      SortPermutes(groups[1..]);
      InsertPermutes(groups[0], SortBySize(groups[1..]));
      assert groups == [groups[0]] + groups[1..];
    }
  }

  /** The sort orders by descending member count. */
  lemma {:induction false} SortSorted(groups: seq<ImageGroup>)
    ensures SortedBySize(SortBySize(groups))
    decreases |groups|
  {
    if groups != [] {
      SortSorted(groups[1..]);
      InsertSorted(groups[0], SortBySize(groups[1..]));
    }
  }

  /** The sort is stable: the groups of each size keep their relative order. */
  lemma {:induction false} SortStable(groups: seq<ImageGroup>, n: nat)
    ensures WithSize(SortBySize(groups), n) == WithSize(groups, n)
    decreases |groups|
  {
    if groups != [] {
      SortStable(groups[1..], n);
      InsertStable(groups[0], SortBySize(groups[1..]), n);
      assert ([groups[0]] + SortBySize(groups[1..]))[1..] == SortBySize(groups[1..]);
    }
  }

  lemma {:induction false} SortTotal(groups: seq<ImageGroup>)
    ensures TotalMembers(SortBySize(groups)) == TotalMembers(groups)
    decreases |groups|
  {
    if groups != [] {
      SortTotal(groups[1..]);
      InsertTotal(groups[0], SortBySize(groups[1..]));
    }
  }

  lemma {:induction false} SortDistinct(groups: seq<ImageGroup>)
    requires DistinctDimensions(groups)
    ensures DistinctDimensions(SortBySize(groups))
    decreases |groups|
  {
    if groups != [] {
      var rest := groups[1..];
      SortDistinct(rest);
      SortPermutes(rest);
      forall h | h in SortBySize(rest) ensures h.dimension != groups[0].dimension {
        assert h in multiset(SortBySize(rest));
        var j :| 0 <= j < |rest| && rest[j] == h;
        assert groups[j + 1] == h;
      }
      InsertDistinct(groups[0], SortBySize(rest));
    }
  }

  /** Each group of the filled dictionary is non-empty and holds exactly its key's images, under the key of its size. */
  lemma BucketedGroups(images: seq<ImageDescriptor>)
    ensures forall g :: g in Bucketed(images) ==>
      g.images != [] && g.images == MembersWithKey(images, g.dimension) && g.dimension == DimensionKey(g.width, g.height)
  {
    var keys := FirstSeenKeys(images);
    var groups := Bucketed(images);
    forall g | g in groups
      ensures g.images != [] && g.images == MembersWithKey(images, g.dimension) && g.dimension == DimensionKey(g.width, g.height)
    {
      var i :| 0 <= i < |groups| && groups[i] == g;
      assert g == GroupOf(images, keys[i]);
      assert g.images[0] in MembersWithKey(images, keys[i]);
    }
  }

  /** Every image has a group of its key in the filled dictionary. */
  lemma BucketedCovers(images: seq<ImageDescriptor>)
    ensures forall m :: m in images ==> exists g :: g in Bucketed(images) && g.dimension == KeyOf(m)
  {
    var keys := FirstSeenKeys(images);
    var groups := Bucketed(images);
    forall m | m in images ensures exists g :: g in groups && g.dimension == KeyOf(m) {
      assert m in MembersWithKey(images, KeyOf(m));
      var i :| 0 <= i < |keys| && keys[i] == KeyOf(m);
      assert groups[i] in groups;
    }
  }

  /** The member counts of the filled dictionary add up to the input length. */
  lemma BucketedTotal(images: seq<ImageDescriptor>)
    ensures TotalMembers(Bucketed(images)) == |images|
  {
    var keys := FirstSeenKeys(images);
    TotalOfGroups(images, keys);
    assert Bucketed(images) == GroupsFor(images, keys);
    KeySumOfFirstSeen(images);
  }

  /** What the filled dictionary holds: non-empty groups of same-sized images, one per key, covering the input. */
  lemma BucketedFacts(images: seq<ImageDescriptor>)
    ensures forall g :: g in Bucketed(images) ==>
      g.images != [] && g.images == MembersWithKey(images, g.dimension) && g.dimension == DimensionKey(g.width, g.height)
    ensures DistinctDimensions(Bucketed(images))
    ensures forall m :: m in images ==> exists g :: g in Bucketed(images) && g.dimension == KeyOf(m)
    ensures TotalMembers(Bucketed(images)) == |images|
  {
    BucketedGroups(images);
    BucketedCovers(images);
    BucketedTotal(images);
  }

  function GroupsFor(images: seq<ImageDescriptor>, keys: seq<string>): seq<ImageGroup>
    requires forall k :: k in keys ==> MembersWithKey(images, k) != []
  {
    seq(|keys|, i requires 0 <= i < |keys| => GroupOf(images, keys[i]))
  }

  /** The number of images filed under the given keys. */
  function KeySum(images: seq<ImageDescriptor>, keys: seq<string>): nat
    decreases |keys|
  {
    if keys == [] then 0 else |MembersWithKey(images, keys[0])| + KeySum(images, keys[1..])
  }

  lemma {:induction false} TotalOfGroups(images: seq<ImageDescriptor>, keys: seq<string>)
    requires forall k :: k in keys ==> MembersWithKey(images, k) != []
    ensures TotalMembers(GroupsFor(images, keys)) == KeySum(images, keys)
    decreases |keys|
  {
    if keys != [] {
      assert GroupsFor(images, keys)[1..] == GroupsFor(images, keys[1..]);
      TotalOfGroups(images, keys[1..]);
    }
  }

  lemma {:induction false} KeySumAppend(images: seq<ImageDescriptor>, keys: seq<string>, k: string)
    ensures KeySum(images, keys + [k]) == KeySum(images, keys) + |MembersWithKey(images, k)|
    decreases |keys|
  {
    if keys != [] {
      assert (keys + [k])[1..] == keys[1..] + [k];
      KeySumAppend(images, keys[1..], k);
    }
  }

  /** Filing one more image adds one to the count of exactly the key it is filed under. */
  lemma {:induction false} KeySumBump(images: seq<ImageDescriptor>, x: ImageDescriptor, keys: seq<string>)
    requires forall i, j :: 0 <= i < j < |keys| ==> keys[i] != keys[j]
    ensures KeySum(images + [x], keys) == KeySum(images, keys) + (if KeyOf(x) in keys then 1 else 0)
    decreases |keys|
  {
    if keys != [] {
      MembersAppend(images, x, keys[0]);
      KeySumBump(images, x, keys[1..]);
      assert KeyOf(x) in keys <==> KeyOf(x) == keys[0] || KeyOf(x) in keys[1..];
      assert KeyOf(x) == keys[0] ==> KeyOf(x) !in keys[1..];
    }
  }

  /** Every image is counted once under the first-seen keys. */
  lemma {:induction false} KeySumOfFirstSeen(images: seq<ImageDescriptor>)
    ensures KeySum(images, FirstSeenKeys(images)) == |images|
    decreases |images|
  {
    if images != [] {
      var n := |images| - 1;
      var pre, x := images[..n], images[n];
      assert images == pre + [x];
      var keys := FirstSeenKeys(pre);
      KeySumOfFirstSeen(pre);
      KeySumBump(pre, x, keys);
      if KeyOf(x) !in keys {
        assert FirstSeenKeys(images) == keys + [KeyOf(x)];
        KeySumAppend(images, keys, KeyOf(x));
        MembersAppend(pre, x, KeyOf(x));
        assert MembersWithKey(pre, KeyOf(x)) == [];
      }
    }
  }

  /**
   * Every group of groupImagesByDimensions is non-empty and holds exactly the
   * images of its key, in input order, all of the group's width and height.
   */
  lemma GroupsAreKeyClasses(images: seq<ImageDescriptor>)
    ensures forall g :: g in Grouping(images) ==>
      g.images != [] && g.images == MembersWithKey(images, g.dimension) &&
      g.dimension == DimensionKey(g.width, g.height)
    ensures forall g, m :: g in Grouping(images) && m in g.images ==> m.width == g.width && m.height == g.height
  {
    var buckets := Bucketed(images);
    var groups := Grouping(images);
    BucketedFacts(images);
    SortPermutes(buckets);
    forall g | g in groups ensures g in buckets {
      assert g in multiset(groups);
    }
    forall g, m | g in groups && m in g.images ensures m.width == g.width && m.height == g.height {
      DimensionKeyInjective(m.width, m.height, g.width, g.height);
    }
  }

  /**
   * groupImagesByDimensions is a partition of its input: keys are distinct,
   * every image is in exactly one group, the member counts add up to the
   * input length, and only the empty input gives no groups.
   */
  lemma GroupingIsPartition(images: seq<ImageDescriptor>)
    ensures DistinctDimensions(Grouping(images))
    ensures forall m :: m in images ==> exists g :: g in Grouping(images) && m in g.images
    ensures forall m, i, j ::
      (m in images && 0 <= i < |Grouping(images)| && 0 <= j < |Grouping(images)| &&
       m in Grouping(images)[i].images && m in Grouping(images)[j].images) ==> i == j
    ensures TotalMembers(Grouping(images)) == |images|
    ensures images == [] <==> Grouping(images) == []
  {
    var buckets := Bucketed(images);
    var groups := Grouping(images);
    BucketedFacts(images);
    GroupsAreKeyClasses(images);
    SortPermutes(buckets);
    SortTotal(buckets);
    SortDistinct(buckets);
    forall m | m in images ensures exists g :: g in groups && m in g.images {
      var g :| g in buckets && g.dimension == KeyOf(m);
      assert g in multiset(buckets);
    }
    forall m, i, j | m in images && 0 <= i < |groups| && 0 <= j < |groups| && m in groups[i].images && m in groups[j].images
      ensures i == j
    {
      assert groups[i] in groups && groups[j] in groups;
    }
    if images != [] {
      assert TotalMembers(groups) > 0;
    }
  }

  /**
   * Groups come out largest first; groups of equal size keep their first-seen
   * key order (the groups of each size appear exactly as in `Bucketed`).
   */
  lemma GroupingOrder(images: seq<ImageDescriptor>)
    ensures SortedBySize(Grouping(images))
    ensures forall n :: WithSize(Grouping(images), n) == WithSize(Bucketed(images), n)
  {
    SortSorted(Bucketed(images));
    forall n ensures WithSize(Grouping(images), n) == WithSize(Bucketed(images), n) {
      SortStable(Bucketed(images), n);
    }
  }

  lemma GroupOfAppend(pre: seq<ImageDescriptor>, x: ImageDescriptor, k: string)
    requires MembersWithKey(pre, k) != [] || KeyOf(x) == k
    ensures MembersWithKey(pre + [x], k) != []
    ensures GroupOf(pre + [x], k) ==
      if KeyOf(x) != k then GroupOf(pre, k)
      else if MembersWithKey(pre, k) == [] then ImageGroup(k, x.width, x.height, [x])
      else GroupOf(pre, k).(images := GroupOf(pre, k).images + [x])
  {
    MembersAppend(pre, x, k);
  }

  /** The dictionary and its key order hold exactly the groups of `images`. */
  ghost predicate Filled(images: seq<ImageDescriptor>, table: map<string, ImageGroup>, order: seq<string>) {
    && order == FirstSeenKeys(images)
    && (forall k :: k in table <==> k in order)
    && HoldsGroups(images, table)
  }

  lemma FirstSeenStep(pre: seq<ImageDescriptor>, image: ImageDescriptor)
    ensures FirstSeenKeys(pre + [image]) ==
      if KeyOf(image) in FirstSeenKeys(pre) then FirstSeenKeys(pre) else FirstSeenKeys(pre) + [KeyOf(image)]
  {
    assert (pre + [image])[..|pre|] == pre;
  }

  /** The groups of `pre`, held under their keys. */
  ghost predicate HoldsGroups(images: seq<ImageDescriptor>, table: map<string, ImageGroup>) {
    forall k :: k in table ==> MembersWithKey(images, k) != [] && table[k] == GroupOf(images, k)
  }

  lemma PushedGroups(pre: seq<ImageDescriptor>, image: ImageDescriptor, table: map<string, ImageGroup>)
    requires HoldsGroups(pre, table)
    requires KeyOf(image) in table
    ensures HoldsGroups(pre + [image], table[KeyOf(image) := table[KeyOf(image)].(images := table[KeyOf(image)].images + [image])])
  {
    var key := KeyOf(image);
    var table' := table[key := table[key].(images := table[key].images + [image])];
    forall k | k in table'
      ensures MembersWithKey(pre + [image], k) != [] && table'[k] == GroupOf(pre + [image], k)
    {
      GroupOfAppend(pre, image, k);
    }
  }

  /** An iteration whose key already has a group: the image is pushed onto that group. */
  lemma FilledPush(pre: seq<ImageDescriptor>, image: ImageDescriptor, table: map<string, ImageGroup>, order: seq<string>)
    requires Filled(pre, table, order)
    requires KeyOf(image) in table
    ensures Filled(pre + [image], table[KeyOf(image) := table[KeyOf(image)].(images := table[KeyOf(image)].images + [image])], order)
  {
    FirstSeenStep(pre, image);
    PushedGroups(pre, image, table);
  }

  lemma CreatedGroups(pre: seq<ImageDescriptor>, image: ImageDescriptor, table: map<string, ImageGroup>)
    requires HoldsGroups(pre, table)
    requires KeyOf(image) !in table && MembersWithKey(pre, KeyOf(image)) == []
    ensures HoldsGroups(pre + [image], table[KeyOf(image) := ImageGroup(KeyOf(image), image.width, image.height, [image])])
  {
    var key := KeyOf(image);
    var table' := table[key := ImageGroup(key, image.width, image.height, [image])];
    forall k | k in table'
      ensures MembersWithKey(pre + [image], k) != [] && table'[k] == GroupOf(pre + [image], k)
    {
      GroupOfAppend(pre, image, k);
    }
  }

  /** An iteration whose key is new: its key is appended and a group holding just the image is stored. */
  lemma FilledCreate(pre: seq<ImageDescriptor>, image: ImageDescriptor, table: map<string, ImageGroup>, order: seq<string>)
    requires Filled(pre, table, order)
    requires KeyOf(image) !in table
    ensures Filled(pre + [image], table[KeyOf(image) := ImageGroup(KeyOf(image), image.width, image.height, [image])],
                   order + [KeyOf(image)])
  {
    FirstSeenStep(pre, image);
    CreatedGroups(pre, image, table);
  }

  lemma PrefixStep<T>(s: seq<T>, i: nat)
    requires i < |s|
    ensures s[..i] + [s[i]] == s[..i + 1]
  {
  }

  lemma OverwriteTwice<K, V>(m: map<K, V>, k: K, a: V, b: V)
    ensures m[k := a][k := b] == m[k := b]
  {
  }

  lemma FilledValues(images: seq<ImageDescriptor>, table: map<string, ImageGroup>, order: seq<string>)
    requires Filled(images, table, order)
    ensures seq(|order|, j requires 0 <= j < |order| => table[order[j]]) == Bucketed(images)
  {
  }

  method GroupImagesByDimensions(images: seq<ImageDescriptor>) returns (groups: seq<ImageGroup>)
    ensures groups == Grouping(images)
    ensures SortedBySize(groups) && DistinctDimensions(groups)
    ensures TotalMembers(groups) == |images|
  {
    var table: map<string, ImageGroup> := map[];
    var order: seq<string> := [];  // the dictionary's key insertion order
    ghost var done: seq<ImageDescriptor> := [];  // the images filed so far
    for i := 0 to |images|
      invariant done == images[..i]
      invariant Filled(done, table, order)
    {
      var image := images[i];
      var key := DimensionKey(image.width, image.height);
      assert key == KeyOf(image);
      ghost var table0, order0 := table, order;
      if key !in table {
        table := table[key := ImageGroup(key, image.width, image.height, [])];
        order := order + [key];
      }
      var group := table[key];
      table := table[key := group.(images := group.images + [image])];
      if key in table0 {
        FilledPush(done, image, table0, order0);
      } else {
        OverwriteTwice(table0, key, ImageGroup(key, image.width, image.height, []), group.(images := group.images + [image]));
        assert group.images + [image] == [image];
        FilledCreate(done, image, table0, order0);
      }
      PrefixStep(images, i);
      done := done + [image];
    }
    assert done == images;
    FilledValues(images, table, order);
    var values := seq(|order|, j requires 0 <= j < |order| => table[order[j]]);
    groups := SortBySize(values);
    GroupingIsPartition(images);
    GroupingOrder(images);
  }

  // ---------------------------------------------------------------------------
  // Replies to getImageCount and getAllImages
  // ---------------------------------------------------------------------------

  /** The answers the content script sends; it sends nothing for any other action. */
  datatype ContentReply =
    | ImageCount(count: nat)
    | AllImages(images: seq<ImageDescriptor>, groups: seq<ImageGroup>)

  /**
   * The message listener, over the page's current <img> elements. The
   * listener always keeps the channel open (`return true`), answering only
   * the two actions it knows.
   */
  method OnContentMessage(action: string, page: seq<ImgElement>) returns (reply: Option<ContentReply>, keepOpen: bool)
    ensures keepOpen
    ensures reply.None? <==> action != "getImageCount" && action != "getAllImages"
    ensures action == "getImageCount" ==> reply == Some(ImageCount(|Scan(page)|))
    ensures action == "getAllImages" ==>
      (reply.Some? && reply.value.AllImages? &&
       reply.value.images == Scan(page) && reply.value.groups == Grouping(reply.value.images) &&
       TotalMembers(reply.value.groups) == |reply.value.images|)
  {
    reply := None;
    if action == "getImageCount" {
      var images := DetectImages(page);
      reply := Some(ImageCount(|images|));
    } else if action == "getAllImages" {
      var images := DetectImages(page);
      var groupedImages := GroupImagesByDimensions(images);
      GroupingIsPartition(images);
      reply := Some(AllImages(images, groupedImages));
    }
    keepOpen := true;
  }
}
