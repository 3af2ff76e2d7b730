# Image Downloader — a verified model of its core

The extension finds the images of a web page, groups them by size, and lets
the user download them one by one, as a batch, or as a zip archive. It has
four scripts. This project models the logic of three of them; the popup is
left out (see below):

- **content script** (`content.dfy`, module `Content`):
  - the classification of a source by its extension (`getImageType`);
  - the scan of the page's `<img>` elements into image descriptors (`detectImages`);
  - the grouping of descriptors into `"WxH"` buckets sorted by size (`groupImagesByDimensions`);
  - the replies to `getImageCount` and `getAllImages`.
- **viewer page** (`viewer.dfy`, module `Viewer`):
  - a class `ImageViewer` holding the page state: `allImages`, `groupedImages`, `selectedImages` and `selectedFormat`;
  - its methods for the image, group and select-all toggles, the format choice, the single download and the zip download;
  - the pure rules behind them: the group-button states, the selection bar, the generated file names and the archive name.
- **background service worker** (`background.dfy`, module `Background`):
  - the runtime message dispatch;
  - the single download and the batch download;
  - the stored-scan reply;
  - `sanitizeFilename`;
  - the key filter of the storage cleanup.

`strings.dfy` (module `Strings`) holds the string helpers the three share:
- decimal rendering of integers, with a proved parse-back;
- splitting at a separator and prefix tests;
- ASCII lower-casing.

Browser services are inputs to the model:
- The download call is an oracle `DownloadCall -> DownloadResult` that answers with an id or a failure.
- The clock reading is a `nat` (for the zip, one reading `now(i)` per item).
- The ISO time is a string.
- Whether `fetch` of a source succeeds is a predicate `fetchOk`.
- A read of local storage is a `StorageRead` value.

What a handler asks of the browser is returned as a list of `Effect`s. These are downloads, 200 ms pauses and opening the viewer tab.

The imperative code keeps its form:
- `detectImages`, `groupImagesByDimensions`, the batch loop, the zip loop and the cleanup loop are methods with loops.
- Each is proved equal to a specification function, and the source's promises are proved about that function as lemmas.
- The viewer's state is a class whose methods state the whole new state.

## Model

| member | source | states |
|---|---|---|
| Strings.NatToString | content.js:33 | the text of a number in a template literal is a non-empty string of decimal digits, "0" for zero and without a leading zero otherwise |
| Strings.ParseNatToString | content.js:33 | reading the decimal text of `n` back gives `n` |
| Strings.NatToStringInjective | content.js:33 | different numbers have different decimal texts |
| Strings.ParseNat | content.js:33 | a parse succeeds exactly on a non-empty all-digit string |
| Strings.ParseNatOfNatToString | content.js:33 | parsing the decimal text of `n` gives `Some(n)` |
| Strings.StripPrefix | content.js:31 | a prefix is stripped exactly when the string starts with it, and prefix plus rest is the string |
| Strings.StripPrefixOf | content.js:31 | stripping `p` from `p + rest` gives `rest` |
| Strings.SplitAtFirst | content.js:14 | no split without the separator; otherwise the part before it has no separator and the pieces rebuild the string |
| Strings.SplitAtFirstOf | content.js:14 | a string with the separator after a separator-free part splits exactly there |
| Strings.BeforeFirst | content.js:14 | `split(c)[0]` has no `c` and is a prefix of the string: all of it when there is no `c`, otherwise the part up to the first `c` |
| Strings.BeforeFirstHead | content.js:14 | a string that does not start with `c` keeps its first character in `split(c)[0]` |
| Strings.AfterLast | content.js:14 | `split(c).pop()` has no `c`, is a suffix, and is preceded by `c` when shorter than the string |
| Strings.AfterLastOf | content.js:14 | after a last `c`, `split(c).pop()` is exactly the tail |
| Strings.AfterLastWithout | content.js:14 | without `c`, `split(c).pop()` is the whole string |
| Strings.ToLower | content.js:14 | lower-casing keeps the length, leaves no upper-case letter, changes a character exactly when it is an upper-case letter, and turns that letter into its lower-case partner (code point + 32) |
| Strings.ToLowerAppend | content.js:14 | lower-casing distributes over concatenation |
| Strings.ToLowerIdempotent | viewer.js:383 | lower-casing twice is lower-casing once |
| Strings.ToLowerKeeps | content.js:14 | a non-letter occurs after lower-casing exactly when it occurred before |
| Strings.ReplaceChar | viewer.js:353 | `replace(/c/g, d)` keeps the length and every other character, turns each `c` into `d`, and leaves no `c` when `d` differs from it |
| Content.ExtensionOf | content.js:14 | the extension text has neither '.' nor '?' |
| Content.TagOf | content.js:15-23 | the tag is UNKNOWN exactly for text outside the seven known extensions; otherwise the text is one of the tag's extensions |
| Content.GetImageType | content.js:13-24 | a source is UNKNOWN exactly when its extension text is not a known extension, and otherwise gets that extension's tag |
| Content.ExtensionOfName | content.js:14 | the extension text of `stem.ext` is `ext` lower-cased |
| Content.AfterLastDotWithQuery | content.js:14 | the last '.'-piece of `stem.ext?query` is `ext?query` when the query has no '.' |
| Content.LowerCutAtQuery | content.js:14 | lower-cased `ext?query` is cut at the '?' into the lower-cased pieces |
| Content.ExtensionOfNameWithQuery | content.js:14 | the extension text of `stem.ext?query` is `ext` lower-cased |
| Content.ClassifiedByTrailingExtension | content.js:13-24 | a name ending in `.ext`, with or without a query, is classified by `ext` in any letter case |
| Content.TypeNameRoundTrip | content.js:15-23 | every tag, lower-cased, is classified back as that tag |
| Content.TypeName | content.js:16-23 | the tag string of each type; TypeNameRoundTrip classifies it back |
| Content.KnownExtensionsOfTags | content.js:16-22 | the seven known extensions are exactly those the switch gives a tag |
| Content.QueryWithDotIsUnknown | content.js:14 | a '.' in the query hides the extension: "a.png?v=1.2" is classified UNKNOWN |
| Content.LeadingLetterIsUnknown | content.js:15-23 | no known extension starts with 'h' or 'd' |
| Content.FetchableStart | content.js:31 | a source starting with "http" or "data:" starts with 'h' or 'd' |
| Content.UndottedFetchableIsUnknown | content.js:13-24 | a kept source without a '.', such as a base64 "data:" URL, is classified UNKNOWN |
| Content.ImageIdRoundTrip | content.js:33 | the id `img_<index>` names its element index back |
| Content.ImageId | content.js:33 | the id `img_<index>`; ImageIdRoundTrip reads the index back |
| Content.ResolvedSource | content.js:30 | `img.src`, or else the data-src attribute; DescribeSound and ScanSound state the kept source is fetchable |
| Content.IsFetchable | content.js:31 | the source starts with "http" or "data:" |
| Content.EffectiveWidth | content.js:36 | `naturalWidth`, or else `width`; DescribeSound states it exceeds 1 for a kept element |
| Content.EffectiveHeight | content.js:37 | `naturalHeight`, or else `height`; DescribeSound states it exceeds 1 for a kept element |
| Content.Kept | content.js:30-40 | an element is kept when its first non-empty source starts with "http" or "data:" and both effective sizes exceed 1; DescribeSound and ScanComplete state it of the scan |
| Content.Describe | content.js:32-39 | the descriptor of a kept element: its id, source, alt text, effective sizes and type; DescribeSound states its bounds |
| Content.Scan | content.js:26-46 | the descriptors of the kept elements in document order; ScanSound, ScanComplete and ScanIdsInDocumentOrder state what it holds |
| Content.DescribeSound | content.js:30-41 | a kept element's descriptor has both sizes above 1, a fetchable source and the id of its index |
| Content.ScanSound | content.js:26-46 | every descriptor comes from a kept element at the index its id names, with sizes above 1 and an http/data: source |
| Content.ScanStep | content.js:28-44 | scanning one more element appends its descriptor, under the id of its index, exactly when it is kept |
| Content.ScanPrefix | content.js:28 | a descriptor found in a prefix of the page is found in the whole page |
| Content.ScanFindsLast | content.js:31-42 | a kept last element is described |
| Content.ScanComplete | content.js:26-46 | every kept element is described, under the id of its index |
| Content.ScanIdsInDocumentOrder | content.js:29-33 | the ids name strictly increasing element indexes, so they are distinct and in document order |
| Content.SizeBoundary | content.js:40-41 | a 1x2 element is dropped and a 2x2 element is kept |
| Content.DetectImages | content.js:26-46 | the loop returns the scan of the page; every descriptor has sizes above 1 and an http/data: source; ids are distinct |
| Content.DimensionKeyRoundTrip | content.js:51 | the key `WxH` reads back as the width and height |
| Content.DimensionKeyInjective | content.js:51 | two sizes share a key only when they are equal |
| Content.DimensionKey | content.js:51 | the key `WxH`; DimensionKeyRoundTrip reads the sizes back |
| Content.MembersWithKey | content.js:50-55 | the images filed under a key are exactly the input images of that key |
| Content.MembersAppend | content.js:55 | filing one more image appends it to its own key's list and to no other |
| Content.FirstSeenKeys | content.js:52-54 | the dictionary's keys are distinct and are exactly the keys of some input image |
| Content.FirstSeenFacts | content.js:52-54 | creating a key on its first sight keeps the keys distinct and complete |
| Content.Bucketed | content.js:57 | `Object.values` has one group per key, in key insertion order |
| Content.InsertPermutes | content.js:57 | one insertion step of the sort is a permutation |
| Content.InsertMembers | content.js:57 | an insertion result holds only the inserted group and the others |
| Content.InsertSorted | content.js:57 | inserting into a list sorted by descending size keeps it sorted |
| Content.InsertStable | content.js:57 | an insertion keeps the relative order of the groups of each size |
| Content.InsertTotal | content.js:57 | an insertion adds the inserted group's members to the member total |
| Content.InsertDistinct | content.js:57 | inserting a group with a new key keeps the keys distinct |
| Content.SortPermutes | content.js:57 | the sort is a permutation of the groups |
| Content.SortSorted | content.js:57 | the sort orders groups by descending member count |
| Content.SortStable | content.js:57 | the sort is stable: the groups of each size keep their order |
| Content.SortTotal | content.js:57 | the sort keeps the member total |
| Content.SortDistinct | content.js:57 | the sort keeps the keys distinct |
| Content.Insert | content.js:57 | one insertion step of the stable sort by descending member count; the Insert lemmas state it |
| Content.SortBySize | content.js:57 | the stable sort by descending member count; the Sort lemmas state it is a sorted, stable permutation |
| Content.BucketedGroups | content.js:50-56 | each group of the filled dictionary is non-empty and holds exactly its key's images, in input order, under the key of its size |
| Content.BucketedCovers | content.js:50-56 | every image has a group of its key |
| Content.BucketedTotal | content.js:49-57 | the member counts of the filled dictionary add up to the input length |
| Content.BucketedFacts | content.js:48-57 | the dictionary's groups are non-empty and distinct; each holds exactly its key's images under the key of its size; they cover the input and their total is its length |
| Content.TotalOfGroups | content.js:57 | the member total of the groups of some keys is the number of images filed under them |
| Content.KeySumAppend | content.js:52-54 | one more key adds its images to the count |
| Content.KeySumBump | content.js:55 | one more image adds one to the count of exactly the key it is filed under |
| Content.KeySumOfFirstSeen | content.js:49-56 | every image is counted exactly once under the dictionary's keys |
| Content.GroupsAreKeyClasses | content.js:48-57 | every group is non-empty and holds its key's images in input order, all of the group's width and height, under key `WxH` |
| Content.GroupingIsPartition | content.js:48-57 | the grouping is a partition: distinct keys, every image in exactly one group, member counts adding to the input length, no group only for the empty input |
| Content.GroupingOrder | content.js:57 | groups come out largest first, and equal-sized groups stay in first-seen key order |
| Content.GroupOfAppend | content.js:52-55 | filing one more image creates its group with it alone or appends it to its existing group; other groups are unchanged |
| Content.Grouping | content.js:48-57 | the dictionary's groups, in key order, sorted by size; GroupingIsPartition and GroupingOrder state what it is |
| Content.FirstSeenStep | content.js:52-54 | a key joins the insertion order only on its first sight |
| Content.PushedGroups | content.js:55 | pushing an image into its existing group keeps the dictionary equal to the grouping |
| Content.FilledPush | content.js:55 | the same, with the key order unchanged |
| Content.CreatedGroups | content.js:52-55 | creating a group for a new key and pushing the image keeps the dictionary equal to the grouping |
| Content.FilledCreate | content.js:52-55 | the same, with the key appended to the order |
| Content.FilledValues | content.js:57 | the values of the filled dictionary in key order are the grouping before sorting |
| Content.GroupImagesByDimensions | content.js:48-58 | the loop returns the grouping of its input: sorted by descending size, distinct keys, member counts adding to the input length |
| Content.OnContentMessage | content.js:119-129 | `getImageCount` answers the number of scanned images; `getAllImages` answers the scan and the grouping of that same scan; other actions get no answer; the channel is always kept open |
| Viewer.IdSetSize | content.js:33 | images with distinct ids have as many ids as images |
| Viewer.SubsetOfSameSize | viewer.js:250 | a subset of the same size is the whole set |
| Viewer.SubsetSize | viewer.js:250 | a subset is no larger than its superset |
| Viewer.FullSizeMeansAll | viewer.js:250 | a selection of shown ids has as many ids as there are images exactly when every image is selected |
| Viewer.WithSelection | viewer.js:194-199 | after `toggleImageSelection(id, b)`, `id` is selected iff `b`, and every other id is unchanged |
| Viewer.WithSelectionIdempotent | viewer.js:194-199 | repeating the same toggle changes nothing more |
| Viewer.ClickTwiceRestores | viewer.js:183-185 | two clicks on an image give back the earlier selection |
| Viewer.Assigned | viewer.js:211-213 | every id of the group is set to the value and every other id is unchanged |
| Viewer.IdSetSnoc | viewer.js:211-213 | one more image adds its id |
| Viewer.AssignedStep | viewer.js:211-213 | setting one more member's id is one more toggle |
| Viewer.FindGroup | viewer.js:158 | no group is found when no group has the dimension; otherwise the first group with it is found |
| Viewer.FindImage | viewer.js:298 | no image is found exactly when no shown image has the id; otherwise the first shown image with the id is found |
| Viewer.CountSelected | viewer.js:161 | the count of selected members is at most the size; it is 0 iff none is selected and the size iff all are |
| Viewer.ClassifyGroup | viewer.js:222-238 | a group button shows "none" iff no member is selected, "full" iff the group is non-empty and all members are selected, and otherwise `k/n` with 0 < k < n |
| Viewer.GroupButtonText | viewer.js:227-238 | the button text of each state, the partial one showing `k/n`; GroupButtonTextsDiffer states the texts tell the states apart |
| Viewer.GroupButtonTextsDiffer | viewer.js:227-238 | the three button states show three different texts |
| Viewer.ShouldSelectGroup | viewer.js:161-162 | the group button selects the group iff no member is selected, which is the "none" state |
| Viewer.SelectionInfo | viewer.js:274-293 | the zip button is disabled iff nothing is selected; select-all is disabled and reads "Aucune image" iff there are no images; it reads "Tout désélectionner" iff count = total > 0 |
| Viewer.DeselectOfferedIffAllSelected | viewer.js:281-292 | the select-all button offers to deselect iff there are images and all of them are selected |
| Viewer.NoUnderscoreInKey | viewer.js:379 | a size key has no '_' |
| Viewer.ExtensionFor | viewer.js:381-386 | the image's type lower-cased for "original", else the chosen format; OriginalFormatKeepsType relates it to the content script |
| Viewer.GenerateFilename | viewer.js:377-389 | the name `image_<WxH>_<time>.<ext>`; FilenameRoundTrip reads every part back |
| Viewer.FilenameRoundTrip | viewer.js:377-389 | a generated name reads back as the image's width and height, the clock reading and the extension |
| Viewer.OriginalFormatKeepsType | viewer.js:382-383 | a name made with the "original" format is classified by the content script as the image's own type |
| Viewer.ZipFilename | viewer.js:353-354 | the archive name is "images_", then the first 19 characters of the ISO time (or all of a shorter one) with each ':' made '-', then ".zip"; it has no ':' |
| Viewer.StampedName | viewer.js:353-354 | "images_", a prefix of the ISO time with each ':' made '-', and ".zip" has no ':' and keeps every other character in place |
| Viewer.ZipFilenameExample | viewer.js:353-354 | "2024-05-01T12:34:56.789Z" gives "images_2024-05-01T12-34-56.zip" |
| Viewer.SelectedList | viewer.js:326 | the list holds exactly the shown images whose ids are selected, and its length is the selected count |
| Viewer.SelectedListSnoc | viewer.js:326 | filtering one more image appends it exactly when its id is selected |
| Viewer.SelectedListAppend | viewer.js:326 | the filter keeps page order: filtering a concatenation gives the filtered parts in the same order |
| Viewer.ItemNames | viewer.js:339 | there is one name per selected item |
| Viewer.ItemNameAt | viewer.js:339 | item `i` is named by `generateFilename` with its own clock reading |
| Viewer.ZipEntries | viewer.js:332-344 | the folder after the loop: the fetched items under their generated names; ZipEntriesContents states its keys and values |
| Viewer.Folder | viewer.js:332-344 | the archive folder holds at most one file per item |
| Viewer.ZipStep | viewer.js:336-343 | one iteration adds the item under its generated name exactly when its fetch succeeds, and a failure changes nothing |
| Viewer.FetchedNamesStep | viewer.js:336-343 | the fetched names grow by the last item's name exactly when its fetch succeeds |
| Viewer.FolderKeys | viewer.js:332-344 | the folder holds a file exactly under the name of each fetched item |
| Viewer.FolderValues | viewer.js:336-340 | every file of the folder is the source of an item whose fetch succeeded |
| Viewer.ZipEntriesContents | viewer.js:326-344 | the archive holds a file exactly under the generated name of each selected item that was fetched, and each file is such an item's source |
| Viewer.MembersAreShown | viewer.js:211-212 | the members of every group are shown images |
| Viewer.ImageViewer.constructor | viewer.js:3-41 | the page opens on the scan of a page, its grouping, an empty selection and the "original" format |
| Viewer.ImageViewer.ToggleImageSelection | viewer.js:191-204 | the id is added or deleted as asked; images, groups and format are unchanged; the selection stays within the shown ids |
| Viewer.ImageViewer.ClickImage | viewer.js:178-186 | a click flips the clicked image's selection and no other |
| Viewer.ImageViewer.ToggleGroupSelection | viewer.js:207-214 | an unknown dimension changes nothing; otherwise every member is set as asked and every other id is unchanged |
| Viewer.ImageViewer.ClickGroupButton | viewer.js:155-165 | an unknown dimension changes nothing; otherwise the group is selected when none of it was selected and deselected otherwise |
| Viewer.ImageViewer.ToggleSelectAll | viewer.js:243-266 | with no images nothing changes; a full selection is emptied; otherwise every image is selected |
| Viewer.ImageViewer.SelectEveryImage | viewer.js:259 | every shown id is added and nothing is removed |
| Viewer.ImageViewer.UpdateDownloadFormat | viewer.js:392-393 | the format becomes the chosen one and nothing else changes |
| Viewer.ImageViewer.Bar | viewer.js:269-294 | the zip button is disabled iff nothing is selected; the deselect label shows iff every shown image is selected |
| Viewer.ImageViewer.DownloadSingleImage | viewer.js:297-307 | an unknown id asks for nothing; a shown id asks for the source of the first image with that id, under its generated name |
| Viewer.ImageViewer.DownloadSelectedAsZip | viewer.js:315-372 | an empty selection does nothing; otherwise the archive holds the fetched selected items under their generated names, in page order, with the ISO-time archive name and the selected count reported |
| Background.FormatOr | background.js:47 | the format or else "jpg": never empty, and a given format is kept |
| Background.DefaultFilename | background.js:47 | the name `image_<time>.<format or jpg>`; DefaultFilenameRoundTrip reads both back |
| Background.DefaultFilenameRoundTrip | background.js:47 | the default name reads back as the clock reading and the extension |
| Background.SingleCall | background.js:45-49 | the call uses the request's url, and its filename or else the default name |
| Background.FieldsOf | background.js:45-47 | the fields read from an object are its own; a list has none, so all three read as absent |
| Background.HandleImageDownload | background.js:43-56 | present data makes one download call, from its fields or from absent ones; the reply is the id when the call starts and the call's error when it fails; absent data is an error without a call |
| Background.NoSeparatorInKey | background.js:66 | a size key has no '.', '_' or '/' |
| Background.BatchFile | background.js:66 | the file part `image_<i+1>_<WxH>.<format or jpg>`; BatchFileRoundTrip reads it back |
| Background.BatchFilename | background.js:66 | the batch folder `images_batch_<timestamp>/` and the file part; BatchFilenameRoundTrip and BatchFilenamesDistinct state it |
| Background.BatchTailRoundTrip | background.js:66 | the position, the size and the extension of a batch file split apart at '_' and '.' |
| Background.BatchFileRoundTrip | background.js:66 | a batch file name reads back as the 1-based position, the size and the extension |
| Background.BatchFilenameRoundTrip | background.js:62-66 | a batch name reads back as the shared timestamp, the 1-based position, the size and the extension |
| Background.BatchFilenamesDistinct | background.js:64-66 | items at different positions of a batch get different names |
| Background.BatchCall | background.js:69-73 | item `i` is downloaded from its url under its batch name; EveryItemAttempted states each item's call is made once, in order |
| Background.BatchIds | background.js:75 | there are at most as many ids as items tried |
| Background.CallsAppend | background.js:64-84 | the calls of two runs of effects are the calls of each, in order |
| Background.ItemEffects | background.js:69-80 | an item's call, then a pause after a success that is not the last item; ItemCalls and ItemEffectsShape state it |
| Background.BatchEffects | background.js:64-84 | the effects of the first k items, in order; EveryItemAttempted and BatchPauses state them |
| Background.PausesAppend | background.js:64-84 | the pauses of two runs of effects add up |
| Background.ItemCalls | background.js:69-80 | an item's effects hold one call and at most one pause |
| Background.EveryItemAttempted | background.js:64-84 | every item is tried once, in order, under its batch name; a failure does not stop the loop |
| Background.ItemEffectsShape | background.js:69-80 | an item makes its call, then pauses only after a success that is not the last item |
| Background.PausesBeforeLast | background.js:78-80 | before the last item there is one pause per success so far |
| Background.BatchPauses | background.js:78-80 | the pauses are the successes among the first n-1 items, so at most n-1 |
| Background.BatchStep | background.js:64-83 | one iteration adds the id of a started call, and adds its call followed by a pause only after a success that is not the last |
| Background.HandleMultipleImageDownload | background.js:59-96 | the loop replies with the ids of the started calls in item order, their count and the item count (the count is at most the item count), and makes exactly the calls and pauses of the batch |
| Background.FiveItemsThirdFails | background.js:64-91 | five items with the third failing report four downloads and make three pauses |
| Background.HandleGetStoredImages | background.js:105-113 | the reply holds exactly the stored values of the four scan keys (`StoredScanKeys`: detectedImages, groupedImages, pageUrl, pageTitle), or the read's error |
| Background.OnMessage | background.js:17-40 | the four known actions (`KnownActions`) go to their handlers and keep the channel open; openViewer opens the tab and does not reply; any other action is answered "Action non reconnue" at once; a batch request whose data is one object makes no call and reports no download and no requested count |
| Background.ReplaceForbidden | background.js:181 | the first replace keeps the length and every allowed character, turns each forbidden character into '_', and leaves no forbidden character |
| Background.DropWhitespace | background.js:181 | the leading white space is removed: the result is a suffix that starts with no white space |
| Background.IsForbidden | background.js:181 | the nine characters of the replaced class: `<`, `>`, `:`, `"`, `/`, `\`, the vertical bar, `?` and `*`; ReplaceForbidden replaces exactly these |
| Background.IsWhitespace | background.js:181 | membership in `WhitespaceChars`, the ECMAScript white space and line terminators of `\s`; CollapseClean states none is left |
| Background.CollapseWhitespace | background.js:181 | the second replace, run by run; CollapseClean, CollapseKeeps and CollapseRun state it |
| Background.CollapseClean | background.js:181 | after the second replace no white space is left, and each character is '_' or comes from the input |
| Background.CollapsePrefix | background.js:181 | a part without white space is kept as it is in front of what follows |
| Background.SanitizedIsClean | background.js:179-182 | a sanitised name has no forbidden character and no white space |
| Background.ReplaceForbiddenKeeps | background.js:181 | a name without forbidden characters is unchanged by the first replace |
| Background.CollapseKeeps | background.js:181 | a name without white space is unchanged by the second replace |
| Background.SanitizeKeepsClean | background.js:179-182 | a clean name is left as it is |
| Background.SanitizeIdempotent | background.js:179-182 | sanitising twice is sanitising once |
| Background.DropRun | background.js:181 | a white-space run before a non-white character is dropped entirely |
| Background.CollapseCons | background.js:181 | a leading non-white character is kept |
| Background.CollapseRunFirst | background.js:181 | a leading white-space run becomes one '_' |
| Background.CollapseRun | background.js:181 | a maximal white-space run between two parts becomes exactly one '_' |
| Background.SanitizeFilename | background.js:179-182 | the two replaces in order; SanitizedIsClean, SanitizeKeepsClean and SanitizeIdempotent state it |
| Background.StaleKeys | background.js:133-137 | a key is collected iff it starts with "temp_", its value has a non-zero timestamp, and it is more than a day old |
| Background.CleanOldStorageData | background.js:124-146 | the loop collects exactly the stale keys in entry order, and removes nothing when reading an entry throws |
| Background.IsStale | background.js:134 | a "temp_" key whose value has a non-zero timestamp more than a day old; StaleKeys collects exactly these |
| Background.Throws | background.js:134 | reading `timestamp` of a null value under a "temp_" key throws; CleanOldStorageData then removes nothing |

## Left out

- popup.js is not part of this model. It only updates the DOM, messages tabs and injects scripts.
- Rendering in viewer.js is left out as DOM work: HTML templating, CSS classes, alerts, the collapse feature with its `localStorage` state, and the zip button's progress texts.
- Browser services are parameters, as described above: the `chrome.*` calls, `fetch`, `Blob`, JSZip, `URL.createObjectURL`, `Date.now()` and `toISOString()`. The bytes of a fetched image are not modelled: an archive entry holds the image's source.
- `setTimeout` timing is left out. Only the number and placement of the 200 ms batch pauses are modelled.
- The content script's page plumbing is left out as event handling: the `MutationObserver`, the MangaDex `fetch` patch, `storeImagesData` and `handlePageUpdate`.
- Host behaviour is left out: when `naturalWidth` becomes known, and how `img.src` is resolved to an absolute URL. Element sizes and sources are inputs.
- `isValidImageUrl` is left out because it depends on the host URL parser.
- The install, startup and `downloads.onChanged` listeners are left out because they only log.
- Numbers are unbounded naturals. `${n}` is rendered as plain decimal digits, which matches JavaScript below 1e21; sizes, indexes and `Date.now()` readings stay far below that, but the injectivity and distinctness lemmas are stated for all naturals. A batch item's `width` and `height` come from an unchecked message; an absent or fractional size (rendered `undefined` or `100.5`) is not modelled.
- Strings.ToLower: does not lower-case non-ASCII letters, because the model has no Unicode case tables.
- A request with no `data` is answered with the error `InvalidDataError` ("invalid data"). In the source the reply carries the message of the runtime error thrown when reading a field of `undefined`; the model does not reproduce that message's text.
- A list sent as a single download is modelled as data whose three fields are absent: the download call gets an empty url, and the download oracle decides the outcome. What the browser does with an undefined url is not modelled beyond that.
- Background.HandleImageDownload: does not model a truthy non-string `filename` or `format`; only a present string or its absence.
- `cleanOldStorageData` sees the storage as an entry list in iteration order. A value is null, an object with a numeric `timestamp` (absent or zero being 0), or something else. A truthy non-numeric timestamp is not modelled. The source never calls this function; its only call is commented out.
- Background.CleanOldStorageData: returns the keys to remove instead of calling `chrome.storage.local.remove`; when a read throws, nothing is removed, as in the source's catch.
- The viewer's start-up (`loadImagesData`) is modelled by the constructor from the scan of a page. The stored copy and the fallback message to the active tab both hold `detectImages` and `groupImagesByDimensions` of that page. A failed load is not modelled.
- Viewer.ImageViewer.ToggleImageSelection: requires the id to be a shown image's id. For any other id the source's DOM lookup returns null and the call throws after changing the set.
- Viewer.ImageViewer.DownloadSelectedAsZip: reports the number of selected images, which is what the source's message reports, even when some fetches fail. A failure to create or download the archive (the catch at viewer.js:365-367) is not modelled.
- Viewer.ImageViewer.DownloadSingleImage: returns the download request instead of making it; a failed download only raises an alert.
- Content.GroupImagesByDimensions: the sort over `Object.values` is modelled as a stable insertion sort on a fresh sequence. The source sorts a fresh array in place, so no other state is affected.
- The content script sends no answer to an action other than its two. The model returns `None` for those actions and keeps the channel open, as the source does.
