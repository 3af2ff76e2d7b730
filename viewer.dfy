/**
 * The viewer page: the selection held by the page (a set of image ids), the
 * image, group and global toggles that change it, the state shown by the
 * group buttons and the selection bar, and the names given to downloaded
 * files and to the zip archive.
 */
module Viewer {
  import opened Strings
  import opened Content

  // ---------------------------------------------------------------------------
  // Sets of ids and the set updates of the toggles
  // ---------------------------------------------------------------------------

  /** The ids of a list of descriptors. */
  function IdSet(images: seq<ImageDescriptor>): set<string> {
    set m | m in images :: m.id
  }

  /** With distinct ids there are as many ids as images. */
  lemma {:induction false} IdSetSize(images: seq<ImageDescriptor>)
    requires DistinctIds(images)
    ensures |IdSet(images)| == |images|
    decreases |images|
  {
    if images != [] {
      var n := |images| - 1;
      var pre := images[..n];
      assert DistinctIds(pre);
      IdSetSize(pre);
      assert images == pre + [images[n]];
      IdSetSnoc(pre, images[n]);
      assert images[n].id !in IdSet(pre);
    }
  }

  lemma SubsetOfSameSize(a: set<string>, b: set<string>)
    requires a <= b && |a| == |b|
    ensures a == b
  {
    if a != b {
      var x :| x in b && x !in a;
      assert a <= b - {x};
      SubsetSize(a, b - {x});
    }
  }

  lemma {:induction false} SubsetSize(a: set<string>, b: set<string>)
    requires a <= b
    ensures |a| <= |b|
    decreases |b|
  {
    if b != {} {
      var x :| x in b;
      SubsetSize(a - {x}, b - {x});
    }
  }

  /**
   * A selection made of ids of `images` has as many ids as there are
   * images exactly when every image is selected.
   */
  lemma FullSizeMeansAll(images: seq<ImageDescriptor>, selection: set<string>)
    requires DistinctIds(images) && selection <= IdSet(images)
    ensures |selection| == |images| <==> selection == IdSet(images)
  {
    IdSetSize(images);
    if |selection| == |images| {
      SubsetOfSameSize(selection, IdSet(images));
    }
  }

  /** The set operation of toggleImageSelection: add `id` or delete it. */
  function WithSelection(selection: set<string>, id: string, selected: bool): (r: set<string>)
    ensures id in r <==> selected
    ensures forall x :: x != id ==> (x in r <==> x in selection)
  {
    if selected then selection + {id} else selection - {id}
  }

  /** Setting the same id to the same value twice is setting it once. */
  lemma WithSelectionIdempotent(selection: set<string>, id: string, selected: bool)
    ensures WithSelection(WithSelection(selection, id, selected), id, selected) == WithSelection(selection, id, selected)
  {
  }

  /** Two clicks on the same image give back the selection before them. */
  lemma ClickTwiceRestores(selection: set<string>, id: string)
    ensures var once := WithSelection(selection, id, id !in selection);
      WithSelection(once, id, id !in once) == selection
  {
    var once := WithSelection(selection, id, id !in selection);
    assert id in once <==> id !in selection;
  }

  /** Every id of `ids` set to `selected`, every other id as before. */
  function Assigned(selection: set<string>, ids: set<string>, selected: bool): (r: set<string>)
    ensures forall x :: x in r <==> if x in ids then selected else x in selection
  {
    if selected then selection + ids else selection - ids
  }

  lemma IdSetSnoc(pre: seq<ImageDescriptor>, image: ImageDescriptor)
    ensures IdSet(pre + [image]) == IdSet(pre) + {image.id}
  {
  }

  /** Setting the ids of one more image, one id at a time. */
  lemma AssignedStep(selection: set<string>, pre: seq<ImageDescriptor>, image: ImageDescriptor, selected: bool)
    ensures Assigned(selection, IdSet(pre + [image]), selected) ==
      WithSelection(Assigned(selection, IdSet(pre), selected), image.id, selected)
  {
    IdSetSnoc(pre, image);
  }

  // ---------------------------------------------------------------------------
  // Lookups and counts
  // ---------------------------------------------------------------------------

  /** `groupedImages.find(g => g.dimension === dimension)`. */
  function FindGroup(groups: seq<ImageGroup>, dimension: string): (r: Option<ImageGroup>)
    ensures r.None? <==> forall g :: g in groups ==> g.dimension != dimension
    ensures r.Some? ==> exists i :: 0 <= i < |groups| && groups[i] == r.value && r.value.dimension == dimension &&
                                  forall j :: 0 <= j < i ==> groups[j].dimension != dimension
    decreases |groups|
  {
    if groups == [] then None
    else if groups[0].dimension == dimension then Some(groups[0])
    else
      var r := FindGroup(groups[1..], dimension);
      assert forall g :: g in groups ==> g == groups[0] || g in groups[1..];
      if r.Some? then
        var i :| 0 <= i < |groups[1..]| && groups[1..][i] == r.value && r.value.dimension == dimension &&
          forall j :: 0 <= j < i ==> groups[1..][j].dimension != dimension;
        assert groups[i + 1] == r.value;
        assert forall j :: 1 <= j < i + 1 ==> groups[j] == groups[1..][j - 1];
        r
      else r
  }

  /** `allImages.find(img => img.id === id)`. */
  function FindImage(images: seq<ImageDescriptor>, id: string): (r: Option<ImageDescriptor>)
    ensures r.None? <==> id !in IdSet(images)
    ensures r.Some? ==> exists i :: 0 <= i < |images| && images[i] == r.value && r.value.id == id &&
                                  forall j :: 0 <= j < i ==> images[j].id != id
    decreases |images|
  {
    if images == [] then None
    else if images[0].id == id then Some(images[0])
    else
      var r := FindImage(images[1..], id);
      assert forall m :: m in images ==> m == images[0] || m in images[1..];
      if r.Some? then
        var i :| 0 <= i < |images[1..]| && images[1..][i] == r.value && r.value.id == id &&
          forall j :: 0 <= j < i ==> images[1..][j].id != id;
        assert images[i + 1] == r.value;
        assert forall j :: 1 <= j < i + 1 ==> images[j] == images[1..][j - 1];
        r
      else r
  }

  predicate NoneSelected(images: seq<ImageDescriptor>, selection: set<string>) {
    forall m :: m in images ==> m.id !in selection
  }

  predicate AllSelected(images: seq<ImageDescriptor>, selection: set<string>) {
    forall m :: m in images ==> m.id in selection
  }

  /** `images.filter(img => selection.has(img.id)).length`. */
  function CountSelected(images: seq<ImageDescriptor>, selection: set<string>): (count: nat)
    ensures count <= |images|
    ensures count == 0 <==> NoneSelected(images, selection)
    ensures count == |images| <==> AllSelected(images, selection)
    decreases |images|
  {
    if images == [] then 0
    else
      var n := |images| - 1;
      assert images == images[..n] + [images[n]];
      CountSelected(images[..n], selection) + (if images[n].id in selection then 1 else 0)
  }

  // ---------------------------------------------------------------------------
  // Button states (updateGroupCheckboxes, updateSelectionInfo)
  // ---------------------------------------------------------------------------

  datatype GroupButton = Unselected | FullySelected | Partial(selected: nat, total: nat)

  /** The state a group's button shows for the current selection. */
  function ClassifyGroup(g: ImageGroup, selection: set<string>): (b: GroupButton)
    ensures b.Unselected? <==> NoneSelected(g.images, selection)
    ensures b.FullySelected? <==> g.images != [] && AllSelected(g.images, selection)
    ensures b.Partial? ==>
      (0 < b.selected < b.total && b.total == |g.images| && b.selected == CountSelected(g.images, selection))
  {
    var selectedInGroup := CountSelected(g.images, selection);
    if selectedInGroup == 0 then Unselected
    else if selectedInGroup == |g.images| then FullySelected
    else Partial(selectedInGroup, |g.images|)
  }

  function GroupButtonText(b: GroupButton): string {
    match b
    case Unselected => "\U{1F4CB} Sélectionner le groupe"
    case FullySelected => "\U{2705} Groupe sélectionné"
    case Partial(k, n) => "\U{1F4CB} " + NatToString(k) + "/" + NatToString(n) + " sélectionnées"
  }

  /** The three states of a group button show three different texts. */
  lemma GroupButtonTextsDiffer(k: nat, n: nat)
    ensures GroupButtonText(Unselected) != GroupButtonText(FullySelected)
    ensures GroupButtonText(Partial(k, n)) != GroupButtonText(Unselected)
    ensures GroupButtonText(Partial(k, n)) != GroupButtonText(FullySelected)
  {
    var partial := GroupButtonText(Partial(k, n));
    assert partial[0] == '\U{1F4CB}' && IsDigit(partial[2]);
    assert GroupButtonText(Unselected)[2] == 'S';
    assert GroupButtonText(FullySelected)[0] == '\U{2705}';
  }

  /** The group button decision: select the whole group only when none of it is selected. */
  function ShouldSelectGroup(g: ImageGroup, selection: set<string>): (select: bool)
    ensures select <==> NoneSelected(g.images, selection)
    ensures select <==> ClassifyGroup(g, selection).Unselected?
  {
    CountSelected(g.images, selection) == 0
  }

  datatype SelectionBar = SelectionBar(
    info: string, zipDisabled: bool, selectAllDisabled: bool, selectAllLabel: string)

  /** The selection bar for `count` selected ids among `total` images. */
  function SelectionInfo(count: nat, total: nat): (bar: SelectionBar)
    ensures bar.zipDisabled <==> count == 0
    ensures bar.selectAllDisabled <==> total == 0
    ensures bar.selectAllLabel == "Aucune image" <==> total == 0
    ensures bar.selectAllLabel == "Tout désélectionner" <==> count == total > 0
    ensures bar.selectAllLabel in {"Aucune image", "Tout sélectionner", "Tout désélectionner"}
  {
    var info := NatToString(count) + " image(s) sélectionnée(s)";
    if total == 0 then SelectionBar(info, count == 0, true, "Aucune image")
    else if count == 0 then SelectionBar(info, true, false, "Tout sélectionner")
    else if count == total then SelectionBar(info, false, false, "Tout désélectionner")
    else SelectionBar(info, false, false, "Tout sélectionner")
  }

  /** The select-all button offers to deselect exactly when every image is selected. */
  lemma DeselectOfferedIffAllSelected(images: seq<ImageDescriptor>, selection: set<string>)
    requires DistinctIds(images) && selection <= IdSet(images)
    ensures SelectionInfo(|selection|, |images|).selectAllLabel == "Tout désélectionner" <==>
      images != [] && selection == IdSet(images)
  {
    FullSizeMeansAll(images, selection);
  }

  // ---------------------------------------------------------------------------
  // File names
  // ---------------------------------------------------------------------------

  /** The extension of a saved file: the lower-cased type for "original", else the format as given. */
  function ExtensionFor(image: ImageDescriptor, format: string): string {
    if format == "original" then ToLower(TypeName(image.imageType)) else format
  }

  /** generateFilename, with the clock reading passed in. */
  function GenerateFilename(image: ImageDescriptor, format: string, timestamp: nat): string {
    "image_" + DimensionKey(image.width, image.height) + "_" + NatToString(timestamp) + "." + ExtensionFor(image, format)
  }

  /** Reads back the size, the time and the extension from a file name. */
  function ParseFilename(name: string): Option<(nat, nat, nat, string)> {
    match StripPrefix(name, "image_")
    case None => None
    case Some(rest) =>
      match SplitAtFirst(rest, '_')
      case None => None
      case Some((dimension, tail)) =>
        match (ParseDimensionKey(dimension), SplitAtFirst(tail, '.'))
        case (Some((w, h)), Some((digits, ext))) =>
          (match ParseNat(digits)
           case Some(ts) => Some((w, h, ts, ext))
           case None => None)
        case _ => None
  }

  lemma NoUnderscoreInKey(width: nat, height: nat)
    ensures '_' !in DimensionKey(width, height)
  {
    NoLetterInDigits(NatToString(width), '_');
    NoLetterInDigits(NatToString(height), '_');
  }

  /** A generated name carries the image's size, the time and the extension, and they can be read back. */
  lemma FilenameRoundTrip(image: ImageDescriptor, format: string, timestamp: nat)
    ensures ParseFilename(GenerateFilename(image, format, timestamp)) ==
      Some((image.width, image.height, timestamp, ExtensionFor(image, format)))
  {
    var key := DimensionKey(image.width, image.height);
    var digits := NatToString(timestamp);
    var ext := ExtensionFor(image, format);
    var rest := key + "_" + digits + "." + ext;
    var tail := digits + "." + ext;
    assert GenerateFilename(image, format, timestamp) == "image_" + rest;
    StripPrefixOf("image_", rest);
    NoUnderscoreInKey(image.width, image.height);
    assert rest == key + ['_'] + tail;
    SplitAtFirstOf(key, '_', tail);
    DimensionKeyRoundTrip(image.width, image.height);
    NoLetterInDigits(digits, '.');
    assert tail == digits + ['.'] + ext;
    SplitAtFirstOf(digits, '.', ext);
    ParseNatOfNatToString(timestamp);
  }

  /** A file saved in the original format is classified by the content script as the image's own type. */
  lemma OriginalFormatKeepsType(image: ImageDescriptor, timestamp: nat)
    ensures GetImageType(GenerateFilename(image, "original", timestamp)) == image.imageType
  {
    var ext := ToLower(TypeName(image.imageType));
    var stem := "image_" + DimensionKey(image.width, image.height) + "_" + NatToString(timestamp);
    assert GenerateFilename(image, "original", timestamp) == stem + "." + ext;
    assert '.' !in ext && '?' !in ext by {
      match image.imageType
      case Jpeg => assert ext == "jpeg";
      case Png => assert ext == "png";
      case Gif => assert ext == "gif";
      case Webp => assert ext == "webp";
      case Svg => assert ext == "svg";
      case Bmp => assert ext == "bmp";
      case Unknown => assert ext == "unknown";
    }
    ExtensionOfName(stem, ext);
    ToLowerIdempotent(TypeName(image.imageType));
    TypeNameRoundTrip(image.imageType);
  }

  /** The archive name: "images_" and the first 19 characters of the ISO time with ':' made '-'. */
  function ZipFilename(iso: string): (name: string)
    ensures StartsWith(name, "images_")
    ensures name[|name| - 4..] == ".zip"
    ensures ':' !in name
    ensures |name| == 11 + (if |iso| < 19 then |iso| else 19)
    ensures forall i :: 0 <= i < |iso| && i < 19 ==> name[7 + i] == (if iso[i] == ':' then '-' else iso[i])
  {
    var cut := if |iso| < 19 then |iso| else 19;
    StampedName(iso, cut);
    "images_" + ReplaceChar(iso[..cut], ':', '-') + ".zip"
  }

  /** "images_<the first `cut` characters>.zip" with every ':' made '-'. */
  lemma StampedName(iso: string, cut: nat)
    requires cut <= |iso|
    ensures var name := "images_" + ReplaceChar(iso[..cut], ':', '-') + ".zip";
      && |name| == 11 + cut && StartsWith(name, "images_") && name[|name| - 4..] == ".zip" && ':' !in name
      && forall i :: 0 <= i < cut ==> name[7 + i] == (if iso[i] == ':' then '-' else iso[i])
  {
    var stamp := ReplaceChar(iso[..cut], ':', '-');
    var name := "images_" + stamp + ".zip";
    assert forall i :: 0 <= i < cut ==> name[7 + i] == stamp[i];
    assert name[..7] == "images_";
    assert name[|name| - 4..] == ".zip";
    assert ':' !in "images_" && ':' !in ".zip";
  }

  lemma ZipFilenameExample()
    ensures ZipFilename("2024-05-01T12:34:56.789Z") == "images_2024-05-01T12-34-56.zip"
  {
    var iso := "2024-05-01T12:34:56.789Z";
    assert iso[..19] == "2024-05-01T12:34:56";
    ExampleStamp();
    assert ZipFilename(iso) == "images_" + ReplaceChar(iso[..19], ':', '-') + ".zip";
  }

  lemma ExampleStamp()
    ensures "images_" + ReplaceChar("2024-05-01T12:34:56", ':', '-') + ".zip" == "images_2024-05-01T12-34-56.zip"
  {
    var stamp := ReplaceChar("2024-05-01T12:34:56", ':', '-');
    assert forall i :: 0 <= i < 19 ==> stamp[i] == "2024-05-01T12-34-56"[i];
    assert stamp == "2024-05-01T12-34-56";
  }

  /** `allImages.filter(img => selection.has(img.id))`: the selected images in page order. */
  function SelectedList(images: seq<ImageDescriptor>, selection: set<string>): (list: seq<ImageDescriptor>)
    ensures forall m :: m in list <==> m in images && m.id in selection
    ensures |list| == CountSelected(images, selection)
    decreases |images|
  {
    if images == [] then []
    else
      var n := |images| - 1;
      assert images == images[..n] + [images[n]];
      SelectedList(images[..n], selection) + (if images[n].id in selection then [images[n]] else [])
  }

  /** Filtering one more image appends it exactly when its id is selected. */
  lemma SelectedListSnoc(images: seq<ImageDescriptor>, m: ImageDescriptor, selection: set<string>)
    ensures SelectedList(images + [m], selection) ==
      SelectedList(images, selection) + (if m.id in selection then [m] else [])
  {
    assert (images + [m])[..|images|] == images;
  }

  /** The filter keeps page order: filtering a concatenation concatenates the filtered parts. */
  lemma {:induction false} SelectedListAppend(a: seq<ImageDescriptor>, b: seq<ImageDescriptor>, selection: set<string>)
    ensures SelectedList(a + b, selection) == SelectedList(a, selection) + SelectedList(b, selection)
    decreases |b|
  {
    if b == [] {
      assert a + b == a;
    } else {
      var n := |b| - 1;
      var c, m := b[..n], b[n];
      assert b == c + [m];
      ConcatAssoc(a, c, [m]);
      SelectedListAppend(a, c, selection);
      SelectedListSnoc(a + c, m, selection);
      SelectedListSnoc(c, m, selection);
      ConcatAssoc(SelectedList(a, selection), SelectedList(c, selection), if m.id in selection then [m] else []);
    }
  }

  /** The names the items are stored under: `generateFilename(image, format)`, the clock read as `now(i)` for item `i`. */
  function ItemNames(list: seq<ImageDescriptor>, format: string, now: nat -> nat): (names: seq<string>)
    ensures |names| == |list|
    decreases |list|
  {
    if list == [] then []
    else
      var n := |list| - 1;
      ItemNames(list[..n], format, now) + [GenerateFilename(list[n], format, now(n))]
  }

  lemma {:induction false} ItemNameAt(list: seq<ImageDescriptor>, format: string, now: nat -> nat, i: nat)
    requires i < |list|
    ensures ItemNames(list, format, now)[i] == GenerateFilename(list[i], format, now(i))
    decreases |list|
  {
    var n := |list| - 1;
    if i < n {
      ItemNameAt(list[..n], format, now, i);
    }
  }

  /**
   * A folder after adding, in order, every item whose fetch succeeds under
   * the item's name (a later file of the same name replaces an earlier one).
   */
  function Folder(list: seq<ImageDescriptor>, names: seq<string>, fetchOk: string -> bool): (folder: map<string, string>)
    requires |names| == |list|
    ensures |folder| <= |list|
    decreases |list|
  {
    if list == [] then map[]
    else
      var n := |list| - 1;
      var before := Folder(list[..n], names[..n], fetchOk);
      if fetchOk(list[n].src) then before[names[n] := list[n].src] else before
  }

  /** The archive's folder for the selected list: each fetched item under its generated name. */
  function ZipEntries(list: seq<ImageDescriptor>, format: string, fetchOk: string -> bool, now: nat -> nat): map<string, string> {
    Folder(list, ItemNames(list, format, now), fetchOk)
  }

  /** One iteration of the zip loop: the item is added under its generated name when its fetch succeeds. */
  lemma ZipStep(list: seq<ImageDescriptor>, format: string, fetchOk: string -> bool, now: nat -> nat, i: nat)
    requires i < |list|
    ensures ZipEntries(list[..i + 1], format, fetchOk, now) ==
      if fetchOk(list[i].src)
      then ZipEntries(list[..i], format, fetchOk, now)[GenerateFilename(list[i], format, now(i)) := list[i].src]
      else ZipEntries(list[..i], format, fetchOk, now)
  {
    var names := ItemNames(list[..i + 1], format, now);
    assert list[..i + 1][..i] == list[..i];
    assert names[..i] == ItemNames(list[..i], format, now);
  }

  /** The names of the items whose fetch succeeds. */
  function FetchedNames(list: seq<ImageDescriptor>, names: seq<string>, fetchOk: string -> bool): set<string>
    requires |names| == |list|
  {
    set i | 0 <= i < |list| && fetchOk(list[i].src) :: names[i]
  }

  /** The names of the items before the last, and the last item's name when its fetch succeeds. */
  lemma FetchedNamesStep(list: seq<ImageDescriptor>, names: seq<string>, fetchOk: string -> bool)
    requires |names| == |list| && list != []
    ensures var n := |list| - 1;
      FetchedNames(list, names, fetchOk) ==
        FetchedNames(list[..n], names[..n], fetchOk) + (if fetchOk(list[n].src) then {names[n]} else {})
  {
    var n := |list| - 1;
    var all := FetchedNames(list, names, fetchOk);
    var earlier := FetchedNames(list[..n], names[..n], fetchOk);
    var last := if fetchOk(list[n].src) then {names[n]} else {};
    forall name | name in all ensures name in earlier + last {
      var i :| 0 <= i < |list| && fetchOk(list[i].src) && name == names[i];
      if i < n {
        assert list[..n][i] == list[i] && names[..n][i] == names[i];
      }
    }
    forall name | name in earlier ensures name in all {
      var i :| 0 <= i < n && fetchOk(list[..n][i].src) && name == names[..n][i];
      assert list[..n][i] == list[i] && names[..n][i] == names[i];
    }
  }

  /** The folder holds one file per name of a fetched item, and no other. */
  lemma {:induction false} FolderKeys(list: seq<ImageDescriptor>, names: seq<string>, fetchOk: string -> bool)
    requires |names| == |list|
    ensures Folder(list, names, fetchOk).Keys == FetchedNames(list, names, fetchOk)
    decreases |list|
  {
    if list != [] {
      var n := |list| - 1;
      FolderKeys(list[..n], names[..n], fetchOk);
      FetchedNamesStep(list, names, fetchOk);
    }
  }

  /** Every file of the folder holds the source of an item whose fetch succeeded. */
  lemma {:induction false} FolderValues(list: seq<ImageDescriptor>, names: seq<string>, fetchOk: string -> bool)
    requires |names| == |list|
    ensures forall name :: name in Folder(list, names, fetchOk) ==>
      exists m :: m in list && fetchOk(m.src) && Folder(list, names, fetchOk)[name] == m.src
    decreases |list|
  {
    if list != [] {
      var n := |list| - 1;
      var folder := Folder(list, names, fetchOk);
      var before := Folder(list[..n], names[..n], fetchOk);
      FolderValues(list[..n], names[..n], fetchOk);
      forall name | name in folder ensures exists m :: m in list && fetchOk(m.src) && folder[name] == m.src {
        if fetchOk(list[n].src) && name == names[n] {
          assert list[n] in list;
        } else {
          assert name in before && folder[name] == before[name];
          var m :| m in list[..n] && fetchOk(m.src) && before[name] == m.src;
          assert m in list;
        }
      }
    }
  }

  /**
   * The archive holds a file exactly under the generated name of each
   * selected item whose fetch succeeded, and each file is the source of
   * such an item.
   */
  lemma ZipEntriesContents(list: seq<ImageDescriptor>, format: string, fetchOk: string -> bool, now: nat -> nat)
    ensures var names := ItemNames(list, format, now);
      ZipEntries(list, format, fetchOk, now).Keys == FetchedNames(list, names, fetchOk)
    ensures forall name :: name in ZipEntries(list, format, fetchOk, now) ==>
      exists m :: m in list && fetchOk(m.src) && ZipEntries(list, format, fetchOk, now)[name] == m.src
  {
    FolderKeys(list, ItemNames(list, format, now), fetchOk);
    FolderValues(list, ItemNames(list, format, now), fetchOk);
  }

  datatype DownloadRequest = DownloadRequest(url: string, filename: string)

  datatype ZipOutcome =
    | NothingSelected
    | ZipCreated(name: string, entries: map<string, string>, reported: nat)

  /** The members of every group are images of the page. */
  lemma MembersAreShown(images: seq<ImageDescriptor>, g: ImageGroup)
    requires g in Grouping(images)
    ensures IdSet(g.images) <= IdSet(images)
  {
    GroupsAreKeyClasses(images);
  }

  // ---------------------------------------------------------------------------
  // The page state
  // ---------------------------------------------------------------------------

  class ImageViewer {
    var allImages: seq<ImageDescriptor>
    var groupedImages: seq<ImageGroup>
    var selectedImages: set<string>
    var selectedFormat: string

    /** The groups are the grouping of the images, and only shown ids are selected. */
    ghost predicate Valid()
      reads this
    {
      && DistinctIds(allImages)
      && groupedImages == Grouping(allImages)
      && selectedImages <= IdSet(allImages)
    }

    /** The page opened on the images the content script found on `page`. */
    constructor(page: seq<ImgElement>)
      ensures Valid()
      ensures allImages == Scan(page) && groupedImages == Grouping(allImages)
      ensures selectedImages == {} && selectedFormat == "original"
    {
      var images := DetectImages(page);
      var groups := GroupImagesByDimensions(images);
      allImages := images;
      groupedImages := groups;
      selectedImages := {};
      selectedFormat := "original";
    }

    method ToggleImageSelection(imageId: string, selected: bool)
      requires Valid() && imageId in IdSet(allImages)
      modifies this
      ensures Valid()
      ensures selectedImages == WithSelection(old(selectedImages), imageId, selected)
      ensures allImages == old(allImages) && groupedImages == old(groupedImages)
      ensures selectedFormat == old(selectedFormat)
    {
      if selected {
        selectedImages := selectedImages + {imageId};
      } else {
        selectedImages := selectedImages - {imageId};
      }
    }

    /** A click on an image flips its selection. */
    method ClickImage(imageId: string)
      requires Valid() && imageId in IdSet(allImages)
      modifies this
      ensures Valid()
      ensures imageId in selectedImages <==> imageId !in old(selectedImages)
      ensures forall x :: x != imageId ==> (x in selectedImages <==> x in old(selectedImages))
      ensures allImages == old(allImages) && groupedImages == old(groupedImages)
      ensures selectedFormat == old(selectedFormat)
    {
      var isSelected := imageId in selectedImages;
      ToggleImageSelection(imageId, !isSelected);
    }

    method ToggleGroupSelection(groupDimension: string, selected: bool)
      requires Valid()
      modifies this
      ensures Valid()
      ensures FindGroup(groupedImages, groupDimension).None? ==> selectedImages == old(selectedImages)
      ensures FindGroup(groupedImages, groupDimension).Some? ==>
        selectedImages == Assigned(old(selectedImages), IdSet(FindGroup(groupedImages, groupDimension).value.images), selected)
      ensures allImages == old(allImages) && groupedImages == old(groupedImages)
      ensures selectedFormat == old(selectedFormat)
    {
      var found := FindGroup(groupedImages, groupDimension);
      if found.None? {
        return;
      }
      var group := found.value;
      MembersAreShown(allImages, group);
      ghost var done: seq<ImageDescriptor> := [];  // the members handled so far
      for i := 0 to |group.images|
        invariant Valid()
        invariant allImages == old(allImages) && groupedImages == old(groupedImages)
        invariant selectedFormat == old(selectedFormat)
        invariant done == group.images[..i]
        invariant selectedImages == Assigned(old(selectedImages), IdSet(done), selected)
      {
        var image := group.images[i];
        assert image.id in IdSet(group.images);
        ToggleImageSelection(image.id, selected);
        AssignedStep(old(selectedImages), done, image, selected);
        PrefixStep(group.images, i);
        done := done + [image];
      }
      assert done == group.images;
    }

    /**
     * The group button: when no member is selected the whole group is
     * selected, otherwise (some or all selected) the whole group is deselected.
     */
    method ClickGroupButton(groupDimension: string)
      requires Valid()
      modifies this
      ensures Valid()
      ensures FindGroup(groupedImages, groupDimension).None? ==> selectedImages == old(selectedImages)
      ensures FindGroup(groupedImages, groupDimension).Some? ==>
        var g := FindGroup(groupedImages, groupDimension).value;
        selectedImages == Assigned(old(selectedImages), IdSet(g.images), NoneSelected(g.images, old(selectedImages)))
      ensures allImages == old(allImages) && groupedImages == old(groupedImages)
      ensures selectedFormat == old(selectedFormat)
    {
      var found := FindGroup(groupedImages, groupDimension);
      if found.None? {
        return;
      }
      var shouldSelect := ShouldSelectGroup(found.value, selectedImages);
      ToggleGroupSelection(groupDimension, shouldSelect);
    }

    /**
     * Select all or deselect all: with no image nothing happens; when every
     * image is selected the selection is emptied, otherwise every image is selected.
     */
    method ToggleSelectAll()
      requires Valid()
      modifies this
      ensures Valid()
      ensures old(allImages) == [] ==> selectedImages == old(selectedImages)
      ensures old(allImages) != [] ==>
        selectedImages == if old(selectedImages) == IdSet(allImages) then {} else IdSet(allImages)
      ensures allImages == old(allImages) && groupedImages == old(groupedImages)
      ensures selectedFormat == old(selectedFormat)
    {
      if |allImages| == 0 {
        return;
      }
      FullSizeMeansAll(allImages, selectedImages);
      var allSelected := |selectedImages| == |allImages|;
      if allSelected {
        selectedImages := {};
      } else {
        SelectEveryImage();
      }
    }

    /** `allImages.forEach(image => selectedImages.add(image.id))`. */
    method SelectEveryImage()
      modifies this
      ensures selectedImages == old(selectedImages) + IdSet(allImages)
      ensures allImages == old(allImages) && groupedImages == old(groupedImages)
      ensures selectedFormat == old(selectedFormat)
    {
      ghost var done: seq<ImageDescriptor> := [];  // the images handled so far
      for i := 0 to |allImages|
        invariant allImages == old(allImages) && groupedImages == old(groupedImages)
        invariant selectedFormat == old(selectedFormat)
        invariant done == allImages[..i]
        invariant selectedImages == old(selectedImages) + IdSet(done)
      {
        selectedImages := selectedImages + {allImages[i].id};
        IdSetSnoc(done, allImages[i]);
        PrefixStep(allImages, i);
        done := done + [allImages[i]];
      }
      assert done == allImages;
    }

    method UpdateDownloadFormat(format: string)
      requires Valid()
      modifies this
      ensures Valid()
      ensures selectedFormat == format
      ensures allImages == old(allImages) && groupedImages == old(groupedImages)
      ensures selectedImages == old(selectedImages)
    {
      selectedFormat := format;
    }

    /** The bar shown for the current selection; the deselect label means every image is selected. */
    function Bar(): (bar: SelectionBar)
      requires Valid()
      reads this
      ensures bar.zipDisabled <==> selectedImages == {}
      ensures bar.selectAllLabel == "Tout désélectionner" <==> allImages != [] && selectedImages == IdSet(allImages)
    {
      DeselectOfferedIffAllSelected(allImages, selectedImages);
      SelectionInfo(|selectedImages|, |allImages|)
    }

    /** The download a click on an image's button asks for, with the clock reading `now`. */
    method DownloadSingleImage(imageId: string, now: nat) returns (request: Option<DownloadRequest>)
      ensures request.None? <==> imageId !in IdSet(allImages)
      ensures request.Some? ==>
        exists i :: 0 <= i < |allImages| && allImages[i].id == imageId &&
          (forall j :: 0 <= j < i ==> allImages[j].id != imageId) &&
          request.value == DownloadRequest(allImages[i].src, GenerateFilename(allImages[i], selectedFormat, now))
    {
      var image := FindImage(allImages, imageId);
      if image.None? {
        return None;
      }
      var filename := GenerateFilename(image.value, selectedFormat, now);
      request := Some(DownloadRequest(image.value.src, filename));
    }

    /**
     * The zip download. `fetchOk` says which sources can be fetched, `now(i)`
     * is the clock read for the i-th selected image and `iso` the ISO time
     * read when the archive is saved.
     */
    method DownloadSelectedAsZip(fetchOk: string -> bool, now: nat -> nat, iso: string) returns (outcome: ZipOutcome)
      ensures outcome.NothingSelected? <==> selectedImages == {}
      ensures outcome.ZipCreated? ==>
        var list := SelectedList(allImages, selectedImages);
        && outcome.name == ZipFilename(iso)
        && outcome.entries == ZipEntries(list, selectedFormat, fetchOk, now)
        && outcome.reported == |list|
    {
      if |selectedImages| == 0 {
        return NothingSelected;
      }
      var format := selectedFormat;
      var selectedImagesList := SelectedList(allImages, selectedImages);
      var folder: map<string, string> := map[];
      for i := 0 to |selectedImagesList|
        invariant folder == ZipEntries(selectedImagesList[..i], format, fetchOk, now)
      {
        var image := selectedImagesList[i];
        ZipStep(selectedImagesList, format, fetchOk, now, i);
        if fetchOk(image.src) {
          var filename := GenerateFilename(image, format, now(i));
          folder := folder[filename := image.src];
        }
      }
      assert selectedImagesList[..|selectedImagesList|] == selectedImagesList;
      var zipFilename := ZipFilename(iso);
      outcome := ZipCreated(zipFilename, folder, |selectedImagesList|);
    }
  }
}
