/**
 * Kohana_Asset_Collection: an ordered, keyed group of assets of one type that
 * is sorted by weight, fingerprinted, and merged into one file whose name
 * carries the fingerprint, rewritten only when it is stale.
 */
module AssetCollection {
  import opened Wrappers
  import opened OrderedMaps
  import opened AssetRecords
  import WeightSort
  import opened MergedOutput
  import opened Timestamps
  import opened Files
  import PhpStrings

  /**
   * The framework helpers the collection calls: the set of valid asset types
   * (Assets::require_valid_type), the crc32b hash, Assets::file_path and
   * Assets::web_path, and Asset::html and Asset::html_inline.
   */
  datatype Helpers = Helpers(
    validTypes: set<string>,
    crc32b: string -> string,
    filePath: (string, string, Option<string>, string) -> string,
    webPath: (string, string, Option<string>, string) -> string,
    html: (string, string) -> string,
    htmlInline: (string, string) -> string)

  class Collection {
    const helpers: Helpers
    const assetType: string
    const name: string
    const destinationPath: Option<string>
    const copy: bool
    const folder: string

    /** `$_assets` */
    var assets: OrderedMap<Asset>
    /** `$_destination_file`, `$_destination_web`: NULL until set_destinations runs. */
    var destinationFile: Option<string>
    var destinationWeb: Option<string>
    /** `$_last_modified`: NULL until some asset reports a time. */
    var lastModified: Option<int>

    ghost predicate Valid()
      reads this
    {
      WellFormed(assets) && assetType in helpers.validTypes
    }

    /** The assets in iteration order. */
    function AssetList(): seq<Asset>
      reads this
    {
      ValuesOf(assets.entries)
    }

    /** What hash_content() returns for the current assets. */
    ghost function Fingerprint(): string
      reads this
    {
      helpers.crc32b(Haystack(AssetList()))
    }

    /** The merged file's name for the current assets. */
    ghost function MergedName(): string
      reads this
    {
      FileName(name, Fingerprint(), assetType)
    }

    /** `new Asset_Collection($type, $name, $destination_path, $copy, $folder)` with a valid type. */
    constructor (helpers: Helpers, assetType: string, name: string, destinationPath: Option<string>, copy: bool, folder: string)
      requires assetType in helpers.validTypes
      ensures Valid()
      ensures this.helpers == helpers && this.assetType == assetType && this.name == name
      ensures this.destinationPath == destinationPath && this.copy == copy && this.folder == folder
      ensures assets == Empty()
      ensures destinationFile.None? && destinationWeb.None? && lastModified.None?
    {
      this.helpers := helpers;
      this.assetType := assetType;
      this.name := name;
      this.destinationPath := destinationPath;
      this.copy := copy;
      this.folder := folder;
      assets := Empty();
      destinationFile, destinationWeb, lastModified := None, None, None;
    }

    /** The constructor's type check: an invalid type makes construction fail. */
    static method Create(helpers: Helpers, assetType: string, name: string, destinationPath: Option<string>, copy: bool, folder: string)
      returns (c: Option<Collection>)
      ensures c.None? <==> assetType !in helpers.validTypes
      ensures c.Some? ==> fresh(c.value) && c.value.Valid() && c.value.assets == Empty()
      ensures c.Some? ==> c.value.assetType == assetType && c.value.name == name && c.value.copy == copy
    {
      if assetType in helpers.validTypes {
        var made := new Collection(helpers, assetType, name, destinationPath, copy, folder);
        c := Some(made);
      } else {
        c := None;
      }
    }

    /**
     * `$collection[$offset] = $value`: with a NULL offset, append under a fresh
     * integer key; otherwise overwrite the entry in place or append a new one.
     */
    method OffsetSet(offset: Option<Key>, value: Asset)
      requires Valid()
      modifies this`assets
      ensures Valid()
      ensures assets == if offset.None? then Push(old(assets), value) else Set(old(assets), offset.value, value)
      ensures offset.None? ==> !HasKey(old(assets).entries, IntKey(old(assets).nextFree))
      ensures offset.None? ==> assets.entries == old(assets).entries + [Entry(IntKey(old(assets).nextFree), value)]
      ensures offset.Some? ==> Get(assets, offset.value) == Some(value)
    {
      if offset.None? {
        PushAppends(assets, value);
        assets := Push(assets, value);
      } else {
        GetAfterSet(assets, offset.value, value, offset.value);
        assets := Set(assets, offset.value, value);
      }
    }

    /** `isset($collection[$offset])` */
    method OffsetExists(offset: Key) returns (b: bool)
      ensures b <==> HasKey(assets.entries, Normalize(offset))
    {
      b := Has(assets, offset);
    }

    /** `unset($collection[$offset])` */
    method OffsetUnset(offset: Key)
      requires Valid()
      modifies this`assets
      ensures Valid()
      ensures assets == Unset(old(assets), offset)
      ensures !HasKey(assets.entries, Normalize(offset))
      ensures |assets.entries| == if HasKey(old(assets).entries, Normalize(offset)) then |old(assets).entries| - 1 else |old(assets).entries|
    {
      UnsetShape(assets, offset);
      assets := Unset(assets, offset);
    }

    /** `$collection[$offset]`: the asset under the key, or NULL. */
    method OffsetGet(offset: Key) returns (r: Option<Asset>)
      ensures r.None? <==> !HasKey(assets.entries, Normalize(offset))
      ensures r.Some? ==> exists i :: 0 <= i < |assets.entries| && assets.entries[i] == Entry(Normalize(offset), r.value)
    {
      r := Get(assets, offset);
    }

    /** Iterator::rewind */
    method Rewind()
      requires Valid()
      modifies this`assets
      ensures Valid()
      ensures assets == Reset(old(assets))
    {
      assets := Reset(assets);
    }

    /** Iterator::current: the asset under the pointer, or FALSE (here None) past the end. */
    method Current() returns (r: Option<Asset>)
      ensures r.Some? <==> assets.pos < |assets.entries|
      ensures r.Some? ==> r.value == assets.entries[assets.pos].value
    {
      var e := CurrentEntry(assets);
      r := if e.Some? then Some(e.value.value) else None;
    }

    /** Iterator::key: the key under the pointer, or NULL past the end. */
    method CurrentKey() returns (r: Option<Key>)
      ensures r.Some? <==> assets.pos < |assets.entries|
      ensures r.Some? ==> r.value == assets.entries[assets.pos].key
    {
      var e := CurrentEntry(assets);
      r := if e.Some? then Some(e.value.key) else None;
    }

    /** Iterator::next: advance the pointer and return the new current asset. */
    method Next() returns (r: Option<Asset>)
      requires Valid()
      modifies this`assets
      ensures Valid()
      ensures assets == OrderedMaps.Next(old(assets))
      ensures r.Some? <==> assets.pos < |assets.entries|
      ensures r.Some? ==> r.value == assets.entries[assets.pos].value
    {
      assets := OrderedMaps.Next(assets);
      r := Current();
    }

    /** Iterator::valid: `current() !== FALSE`. */
    method HasCurrent() returns (b: bool)
      ensures b <==> assets.pos < |assets.entries|
    {
      var c := Current();
      b := c.Some?;
    }

    /** Countable::count */
    method Count() returns (n: nat)
      ensures n == |assets.entries|
    {
      n := |assets.entries|;
    }

    /**
     * sort(): usort by weight. The assets afterwards are the same assets, with
     * weights non-decreasing, renumbered 0..n-1. The order of equal weights depends on
     * the PHP version (undefined before 8.0, the original order from 8.0), so none is stated.
     * An empty array is left as it is, so its next automatic index is kept.
     */
    method Sort() returns (ok: bool)
      requires Valid()
      modifies this`assets
      ensures Valid() && ok
      ensures |assets.entries| == |old(assets).entries|
      ensures multiset(AssetList()) == multiset(old(AssetList()))
      ensures WeightSort.SortedByWeight(AssetList())
      ensures forall i :: 0 <= i < |assets.entries| ==> assets.entries[i].key == IntKey(i)
      ensures assets.pos == 0
      ensures assets.nextFree == if |old(assets).entries| == 0 then old(assets).nextFree else |assets.entries|
      ensures |old(assets).entries| == 0 ==> assets == old(assets)
    {
      if |assets.entries| > 0 {
        assets := FromList(WeightSort.SortByWeight(ValuesOf(assets.entries)));
      }
      ok := true;
    }

    /** compile(): every asset's compiled output followed by "\n\n", in iteration order. */
    method Compile(process: bool) returns (content: string)
      ensures content == Compiled(AssetList(), process)
    {
      var xs := AssetList();
      content := "";
      var i := 0;
      while i < |xs|
        invariant 0 <= i <= |xs|
        invariant content == Compiled(xs[..i], process)
      {
        var part := Part(xs[i], process);
        CompiledSnoc(xs[..i], xs[i], process);
        assert xs[..i + 1] == xs[..i] + [xs[i]];
        content := content + part;
        i := i + 1;
      }
      assert xs[..i] == xs;
    }

    /** hash_content(): crc32b of the haystack built from the assets in order. */
    method HashContent() returns (hash: string)
      ensures hash == helpers.crc32b(Haystack(AssetList()))
    {
      var xs := AssetList();
      var haystack := "";
      var i := 0;
      while i < |xs|
        invariant 0 <= i <= |xs|
        invariant haystack == Haystack(xs[..i])
      {
        var part := xs[i].HashSource() + PhpStrings.IntToString(xs[i].weight);
        HaystackPrefix(xs, i);
        haystack := haystack + part;
        i := i + 1;
      }
      assert xs[..i] == xs;
      hash := helpers.crc32b(haystack);
    }

    /** set_destinations(): both paths name the file `name-hash.type` for the current assets. */
    method SetDestinations()
      modifies this`destinationFile, this`destinationWeb
      ensures destinationFile == Some(helpers.filePath(assetType, MergedName(), destinationPath, folder))
      ensures destinationWeb == Some(helpers.webPath(assetType, MergedName(), destinationPath, folder))
    {
      var hash := HashContent();
      var fileName := FileName(name, hash, assetType);
      destinationFile := Some(helpers.filePath(assetType, fileName, destinationPath, folder));
      destinationWeb := Some(helpers.webPath(assetType, fileName, destinationPath, folder));
    }

    /** _invoke: map every entry's value through `f`, keeping its key and its place. */
    static method Invoke<V, T>(arr: OrderedMap<V>, f: V -> T) returns (r: OrderedMap<T>)
      requires WellFormed(arr)
      ensures WellFormed(r)
      ensures |r.entries| == |arr.entries|
      ensures forall i :: 0 <= i < |arr.entries| ==> r.entries[i] == Entry(arr.entries[i].key, f(arr.entries[i].value))
    {
      r := Empty();
      var i := 0;
      while i < |arr.entries|
        invariant 0 <= i <= |arr.entries|
        invariant WellFormed(r)
        invariant |r.entries| == i
        invariant forall j :: 0 <= j < i ==> r.entries[j] == Entry(arr.entries[j].key, f(arr.entries[j].value))
      {
        var e := arr.entries[i];
        assert Normalize(e.key) == e.key;
        assert !HasKey(r.entries, e.key) by {
          forall j | 0 <= j < i ensures r.entries[j].key != e.key {
            assert arr.entries[j].key != arr.entries[i].key;
          }
        }
        r := Set(r, e.key, f(e.value));
        i := i + 1;
      }
    }

    /**
     * last_modified(): once a time is cached it is returned as is, whatever the
     * assets are now; until then the newest truthy asset time is recomputed on
     * each call and cached only when there is one.
     */
    method LastModified() returns (t: Option<int>)
      requires Valid()
      modifies this`lastModified
      ensures Valid()
      ensures old(lastModified).Some? ==> t == old(lastModified)
      ensures old(lastModified).None? ==> t == LatestTime(AssetList())
      ensures lastModified == t
    {
      if lastModified.None? {
        var times := Invoke(assets, (a: Asset) => a.lastModified);
        assert ValuesOf(times.entries) == TimesOf(AssetList());
        var truthy := TruthyTimes(ValuesOf(times.entries));
        if truthy != [] {
          lastModified := Some(MaxOf(truthy));
        }
      }
      t := lastModified;
    }

    /** needs_recompile(): the merged file is missing or older than the assets' newest time. */
    method NeedsRecompile(disk: FileStore) returns (b: bool)
      requires Valid()
      modifies this`lastModified
      ensures Valid()
      ensures lastModified == if old(lastModified).Some? then old(lastModified) else LatestTime(AssetList())
      ensures b == IsModifiedLater(disk.files, destinationFile, lastModified)
    {
      var t := LastModified();
      b := IsModifiedLater(disk.files, destinationFile, t);
    }

    /**
     * The first two steps of render() and get_webpath(): recompute the
     * destinations, then write the compiled assets to the destination file
     * if and only if it is stale and copying is on. The staleness test runs
     * (and may cache the time) even when copying is off.
     */
    method RecompileIfNeeded(process: bool, disk: FileStore, now: int)
      requires Valid()
      modifies this`destinationFile, this`destinationWeb, this`lastModified, disk
      ensures Valid() && assets == old(assets)
      ensures destinationFile == Some(helpers.filePath(assetType, MergedName(), destinationPath, folder))
      ensures destinationWeb == Some(helpers.webPath(assetType, MergedName(), destinationPath, folder))
      ensures lastModified == if old(lastModified).Some? then old(lastModified) else LatestTime(AssetList())
      ensures IsModifiedLater(old(disk.files), destinationFile, lastModified) && copy ==>
        && disk.files == old(disk.files)[destinationFile.value := File(Compiled(AssetList(), process), now)]
        && disk.writes == old(disk.writes) + [Write(destinationFile.value, Compiled(AssetList(), process))]
      ensures !(IsModifiedLater(old(disk.files), destinationFile, lastModified) && copy) ==>
        disk.files == old(disk.files) && disk.writes == old(disk.writes)
    {
      SetDestinations();
      var stale := NeedsRecompile(disk);
      if stale && copy {
        var content := Compile(process);
        disk.PutContents(destinationFile.value, content, now);
      }
    }

    /** render(): recompile if needed, then the HTML tag for the merged file's web path. */
    method Render(process: bool, disk: FileStore, now: int) returns (html: string)
      requires Valid()
      modifies this`destinationFile, this`destinationWeb, this`lastModified, disk
      ensures Valid() && assets == old(assets)
      ensures destinationFile == Some(helpers.filePath(assetType, MergedName(), destinationPath, folder))
      ensures destinationWeb == Some(helpers.webPath(assetType, MergedName(), destinationPath, folder))
      ensures lastModified == if old(lastModified).Some? then old(lastModified) else LatestTime(AssetList())
      ensures IsModifiedLater(old(disk.files), destinationFile, lastModified) && copy ==>
        && disk.files == old(disk.files)[destinationFile.value := File(Compiled(AssetList(), process), now)]
        && disk.writes == old(disk.writes) + [Write(destinationFile.value, Compiled(AssetList(), process))]
      ensures !(IsModifiedLater(old(disk.files), destinationFile, lastModified) && copy) ==>
        disk.files == old(disk.files) && disk.writes == old(disk.writes)
      ensures html == helpers.html(assetType, destinationWeb.value)
    {
      RecompileIfNeeded(process, disk, now);
      html := helpers.html(assetType, destinationWeb.value);
    }

    /** get_webpath(): recompile if needed, then the merged file's web path. */
    method GetWebpath(process: bool, disk: FileStore, now: int) returns (web: string)
      requires Valid()
      modifies this`destinationFile, this`destinationWeb, this`lastModified, disk
      ensures Valid() && assets == old(assets)
      ensures destinationFile == Some(helpers.filePath(assetType, MergedName(), destinationPath, folder))
      ensures web == helpers.webPath(assetType, MergedName(), destinationPath, folder)
      ensures destinationWeb == Some(web)
      ensures lastModified == if old(lastModified).Some? then old(lastModified) else LatestTime(AssetList())
      ensures IsModifiedLater(old(disk.files), destinationFile, lastModified) && copy ==>
        && disk.files == old(disk.files)[destinationFile.value := File(Compiled(AssetList(), process), now)]
        && disk.writes == old(disk.writes) + [Write(destinationFile.value, Compiled(AssetList(), process))]
      ensures !(IsModifiedLater(old(disk.files), destinationFile, lastModified) && copy) ==>
        disk.files == old(disk.files) && disk.writes == old(disk.writes)
    {
      RecompileIfNeeded(process, disk, now);
      web := destinationWeb.value;
    }

    /** inline(): the HTML that embeds the compiled assets directly; no file, no paths. */
    method Inline(process: bool) returns (html: string)
      ensures html == helpers.htmlInline(assetType, Compiled(AssetList(), process))
    {
      var content := Compile(process);
      html := helpers.htmlInline(assetType, content);
    }
  }

  /**
   * `foreach ($collection as $key => $asset)` through the Iterator methods
   * visits exactly the entries, in order, and leaves them as they were.
   */
  method Traverse(c: Collection) returns (seen: seq<Entry<Asset>>)
    requires c.Valid()
    modifies c`assets
    ensures c.Valid()
    ensures c.assets.entries == old(c.assets.entries)
    ensures c.assets.nextFree == old(c.assets.nextFree)
    ensures seen == c.assets.entries
  {
    c.Rewind();
    seen := [];
    var more := c.HasCurrent();
    while more
      invariant c.Valid()
      invariant c.assets.entries == old(c.assets.entries)
      invariant c.assets.nextFree == old(c.assets.nextFree)
      invariant c.assets.pos == |seen| <= |c.assets.entries|
      invariant seen == c.assets.entries[..c.assets.pos]
      invariant more <==> c.assets.pos < |c.assets.entries|
      decreases |c.assets.entries| - c.assets.pos
    {
      var k := c.CurrentKey();
      var a := c.Current();
      seen := seen + [Entry(k.value, a.value)];
      var _ := c.Next();
      more := c.HasCurrent();
    }
  }

  /**
   * The memoised time survives later changes to the assets: once last_modified()
   * has returned a time, adding or replacing an asset does not change what it returns.
   */
  method LastModifiedSticks(c: Collection, offset: Option<Key>, a: Asset) returns (before: Option<int>, after: Option<int>)
    requires c.Valid()
    modifies c
    ensures before.Some? ==> after == before
    ensures before.None? ==> after == LatestTime(c.AssetList())
  {
    before := c.LastModified();
    c.OffsetSet(offset, a);
    after := c.LastModified();
  }

  /**
   * `$c[] = $a; $c[] = $b; $c[] = $d; unset($c[2]); $c->sort(); $c[] = $e;` on a new
   * collection: the sort resets the automatic index to the count, so `$e` is stored
   * under 2, the index `$d` had.
   */
  method SortReusesIndex(c: Collection, a: Asset, b: Asset, d: Asset, e: Asset)
    requires c.Valid() && c.assets == Empty()
    modifies c
    ensures c.Valid()
    ensures |c.assets.entries| == 3 && c.assets.entries[2] == Entry(IntKey(2), e)
  {
    c.OffsetSet(None, a);
    c.OffsetSet(None, b);
    c.OffsetSet(None, d);
    assert c.assets.entries[2].key == IntKey(2);
    c.OffsetUnset(IntKey(2));
    assert |c.assets.entries| == 2;
    var _ := c.Sort();
    assert c.assets.nextFree == 2;
    c.OffsetSet(None, e);
  }

  /**
   * Rendering twice with unchanged assets writes the merged file at most once,
   * provided the clock at the first write is no earlier than any asset's time
   * (and than a time already cached): the file written first is not stale the second time.
   */
  method RenderTwice(c: Collection, disk: FileStore, process: bool, now: int, later: int) returns (first: string, second: string)
    requires c.Valid()
    requires c.lastModified.None? || c.lastModified.value <= now
    requires forall i :: 0 <= i < |c.assets.entries| && IsTruthyTime(c.assets.entries[i].value.lastModified) ==>
      c.assets.entries[i].value.lastModified.value <= now
    modifies c, disk
    ensures first == second
    ensures |disk.writes| <= |old(disk.writes)| + 1
  {
    LatestTimeIsMax(c.AssetList());
    first := c.Render(process, disk, now);
    ghost var written := disk.writes;
    second := c.Render(process, disk, later);
    assert disk.writes == written;
  }

  /**
   * `$c[] = $a; unset($c[0]); $c->sort(); $c[] = $b;` on a new collection: sorting
   * the emptied array keeps its next automatic index, so `$b` is stored under 1.
   */
  method UnsetSortAppend(c: Collection, a: Asset, b: Asset)
    requires c.Valid() && c.assets == Empty()
    modifies c
    ensures c.Valid()
    ensures c.assets.entries == [Entry(IntKey(1), b)]
  {
    c.OffsetSet(None, a);
    c.OffsetUnset(IntKey(0));
    var _ := c.Sort();
    c.OffsetSet(None, b);
  }
}
