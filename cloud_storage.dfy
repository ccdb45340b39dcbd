/** The Cloud Storage listing adapter: the listing prefix for a folder, and the step that
    turns the listed objects of a bucket into image files, once the listing response
    has arrived. */
module CloudStorage {
  import opened Wrappers
  import opened Text

  /** One object of the listing response; `contentType` may be absent. */
  datatype StorageItem = StorageItem(name: string, contentType: Option<string>)

  datatype CloudStorageFile = CloudStorageFile(name: string, bucket: string, contentType: string, mediaLink: string)

  const MediaHost: string := "https://storage.googleapis.com/"

  /** The `prefix` query value: nothing for the bucket root, else the folder path with
      a trailing slash. */
  function ListingPrefix(folderPath: string): (prefix: string)
    ensures prefix == [] <==> folderPath == []
    ensures prefix != [] ==> prefix[|prefix| - 1] == '/' && prefix[..|prefix| - 1] == folderPath
  {
    if folderPath == [] then [] else folderPath + "/"
  }

  /** The filter: an image content type, and not a folder placeholder. */
  predicate IsListedImage(item: StorageItem) {
    && item.contentType.Some?
    && StartsWith(item.contentType.value, "image/")
    && !EndsWith(item.name, "/")
  }

  /** `path.split('/').pop()`. */
  function BaseName(path: string): (name: string)
    ensures '/' !in name
    ensures |name| <= |path| && name == path[|path| - |name|..]
    ensures |name| < |path| ==> path[|path| - |name| - 1] == '/'
    ensures '/' !in path ==> name == path
  {
    var parts := Split(path, '/');
    SplitLast(path, '/');
    if '/' in path then parts[|parts| - 1]
    else
      SplitWithoutSeparator(path, '/');
      parts[|parts| - 1]
  }

  /** The map step for one kept object. */
  function ToFile(bucketName: string, item: StorageItem): CloudStorageFile
    requires IsListedImage(item)
  {
    CloudStorageFile(BaseName(item.name), bucketName, item.contentType.value, MediaHost + bucketName + "/" + item.name)
  }

  /** The filter step: the listed images, in listing order. */
  function KeptItems(items: seq<StorageItem>): (kept: seq<StorageItem>)
    ensures |kept| <= |items|
    ensures forall x :: x in kept ==> IsListedImage(x)
  {
    if items == [] then []
    else
      var init := KeptItems(items[..|items| - 1]);
      if IsListedImage(items[|items| - 1]) then init + [items[|items| - 1]] else init
  }

  /** The positions of the kept objects in the listing. */
  function KeptIndices(items: seq<StorageItem>): (idx: seq<nat>)
    ensures |idx| == |KeptItems(items)|
    ensures forall j :: 0 <= j < |idx| ==> idx[j] < |items| && KeptItems(items)[j] == items[idx[j]]
  {
    if items == [] then []
    else
      var init := KeptItems(items[..|items| - 1]);
      var idx := KeptIndices(items[..|items| - 1]);
      if IsListedImage(items[|items| - 1]) then
        assert KeptItems(items) == init + [items[|items| - 1]];
        idx + [|items| - 1]
      else idx
  }

  /** `(data.items || []).filter(...).map(...)`: an absent `items` field lists nothing. */
  function ListImageFiles(bucketName: string, items: Option<seq<StorageItem>>): (files: seq<CloudStorageFile>)
    ensures items.None? ==> files == []
    ensures items.Some? ==> |files| == |KeptItems(items.value)|
  {
    var kept := KeptItems(items.GetOr([]));
    seq(|kept|, j requires 0 <= j < |kept| => ToFile(bucketName, kept[j]))
  }

  /** `getCloudStorageImageUrl`: the media link, unchanged. */
  function ImageUrl(file: CloudStorageFile): (url: string)
    ensures url == file.mediaLink
  {
    file.mediaLink
  }

  // ----- properties -----

  /** The kept positions are increasing, and are exactly the positions of listed
      images: the filter keeps the listing order and drops nothing else. */
  lemma {:induction false} KeptIndicesExact(items: seq<StorageItem>)
    ensures var idx := KeptIndices(items);
      && (forall a, b :: 0 <= a < b < |idx| ==> idx[a] < idx[b])
      && (forall i :: 0 <= i < |items| ==> (IsListedImage(items[i]) <==> i in idx))
  {
    if items != [] {
      var init := items[..|items| - 1];
      KeptIndicesExact(init);
      KeptIndicesStep(items);
    }
  }

  /** One more object extends the kept positions by its own position or by nothing. */
  lemma KeptIndicesStep(items: seq<StorageItem>)
    requires items != []
    requires var idx0 := KeptIndices(items[..|items| - 1]);
      && (forall a, b :: 0 <= a < b < |idx0| ==> idx0[a] < idx0[b])
      && (forall i :: 0 <= i < |items| - 1 ==> (IsListedImage(items[i]) <==> i in idx0))
    ensures var idx := KeptIndices(items);
      && (forall a, b :: 0 <= a < b < |idx| ==> idx[a] < idx[b])
      && (forall i :: 0 <= i < |items| ==> (IsListedImage(items[i]) <==> i in idx))
  {
    var init, last := items[..|items| - 1], items[|items| - 1];
    var n := |init|;
    var idx0 := KeptIndices(init);
    var idx := KeptIndices(items);
    assert forall j :: 0 <= j < |idx0| ==> idx0[j] < n;
    if IsListedImage(last) {
      assert idx == idx0 + [n];
      AppendIndex(idx0, n);
    } else {
      assert idx == idx0;
      assert n !in idx0;
    }
  }

  /** Appending a position above all others keeps the positions increasing and adds
      just that position. */
  lemma AppendIndex(idx0: seq<nat>, n: nat)
    requires forall a, b :: 0 <= a < b < |idx0| ==> idx0[a] < idx0[b]
    requires forall j :: 0 <= j < |idx0| ==> idx0[j] < n
    ensures var idx := idx0 + [n];
      && (forall a, b :: 0 <= a < b < |idx| ==> idx[a] < idx[b])
      && (forall i :: i in idx <==> i in idx0 || i == n)
  {
    var idx := idx0 + [n];
    forall a, b | 0 <= a < b < |idx| ensures idx[a] < idx[b] {
      assert idx[a] == idx0[a];
      if b < |idx0| {
        assert idx[b] == idx0[b];
      }
    }
  }

  /** Each listed file is the map of a kept object: its name is the base name, the
      bucket is the requested one, and the media link is built from the full path. */
  lemma ListedFiles(bucketName: string, items: seq<StorageItem>)
    ensures var files := ListImageFiles(bucketName, Some(items));
      && |files| == |KeptIndices(items)| <= |items|
      && forall j :: 0 <= j < |files| ==>
        var item := items[KeptIndices(items)[j]];
        && IsListedImage(item)
        && files[j].name == BaseName(item.name)
        && '/' !in files[j].name
        && files[j].bucket == bucketName
        && files[j].contentType == item.contentType.value
        && StartsWith(files[j].contentType, "image/")
        && ImageUrl(files[j]) == MediaHost + bucketName + "/" + item.name
  {
  }
}
