/** `groupScenesAndVersions`: gathers parsed file records into scenes, each with its
    versions. `Grouped` is the specification function, `GroupScenesAndVersions` the
    method that builds the result the way the program does, with a map filled record
    by record, arrays pushed to and sorted in place. */
module SceneGrouping {
  import opened Text
  import opened StableSort
  import opened OrderedMaps
  import opened SceneParser

  /** One selectable version of a scene. */
  datatype Version = Version(id: string, name: string, imageUrl: string)

  /** A scene with its versions, as handed to the widget. */
  datatype SceneData = SceneData(id: string, name: string, order: int, versions: seq<Version>)

  /** The value stored per scene name while grouping: the records by version name,
      and the order of the first record seen for the scene. */
  datatype SceneEntry = SceneEntry(versions: OrderedMap<ParsedScene>, order: int)

  /** The version map of scene `scene` is well formed and stores each record under its
      own version name. */
  predicate VersionsKeyed(vm: OrderedMap<ParsedScene>, scene: string) {
    && Valid(vm)
    && forall v :: v in vm.entries ==> vm.entries[v].versionName == v && vm.entries[v].sceneName == scene
  }

  /** The scene map is well formed and every scene's versions are keyed as above. */
  predicate WellFormed(m: OrderedMap<SceneEntry>) {
    && Valid(m)
    && forall k :: k in m.entries ==> VersionsKeyed(m.entries[k].versions, k)
  }

  /** The body of the first `forEach`: creates the scene entry on its first record,
      then sets the record under its version name. */
  function AddFile(m: OrderedMap<SceneEntry>, file: ParsedScene): (r: OrderedMap<SceneEntry>)
    requires WellFormed(m)
    ensures WellFormed(r)
  {
    var m1 := if file.sceneName in m.entries then m
              else Set(m, file.sceneName, SceneEntry(Empty(), file.order));
    var entry := m1.entries[file.sceneName];
    Set(m1, file.sceneName, entry.(versions := Set(entry.versions, file.versionName, file)))
  }

  /** The scene map after the first `forEach` over `files`. */
  function SceneMapOf(files: seq<ParsedScene>): (m: OrderedMap<SceneEntry>)
    ensures WellFormed(m)
  {
    if files == [] then Empty() else AddFile(SceneMapOf(files[..|files| - 1]), files[|files| - 1])
  }

  /** The version pushed for a record; its id is the slug of its name. */
  function VersionOf(file: ParsedScene): Version {
    Version(Slug(file.versionName), file.versionName, file.imageUrl)
  }

  /** The versions of one scene, in the map's insertion order. */
  function VersionsInOrder(vm: OrderedMap<ParsedScene>): seq<Version>
    requires Valid(vm)
  {
    seq(|vm.keys|, i requires 0 <= i < |vm.keys| => VersionOf(vm.entries[vm.keys[i]]))
  }

  /** `a.name.localeCompare(b.name) > 0`. */
  predicate VersionGreater(a: Version, b: Version) {
    !StrLe(a.name, b.name)
  }

  /** `a.order - b.order > 0`. */
  predicate SceneGreater(a: SceneData, b: SceneData) {
    a.order > b.order
  }

  /** The scene pushed for one entry of the scene map. */
  function SceneOf(name: string, entry: SceneEntry): SceneData
    requires Valid(entry.versions)
  {
    SceneData(Slug(name), name, entry.order, Sort(VersionsInOrder(entry.versions), VersionGreater))
  }

  /** The scenes in the map's insertion order, before the final sort. */
  function ScenesInOrder(m: OrderedMap<SceneEntry>): seq<SceneData>
    requires WellFormed(m)
  {
    seq(|m.keys|, i requires 0 <= i < |m.keys| => SceneOf(m.keys[i], m.entries[m.keys[i]]))
  }

  /** What `groupScenesAndVersions(files)` returns. */
  function Grouped(files: seq<ParsedScene>): seq<SceneData> {
    Sort(ScenesInOrder(SceneMapOf(files)), SceneGreater)
  }

  /** The first `forEach` of `groupScenesAndVersions`: fills the scene map. */
  method BuildSceneMap(parsedFiles: seq<ParsedScene>) returns (sceneMap: OrderedMap<SceneEntry>)
    ensures sceneMap == SceneMapOf(parsedFiles)
  {
    sceneMap := Empty();
    var i := 0;
    while i < |parsedFiles|
      invariant 0 <= i <= |parsedFiles|
      invariant sceneMap == SceneMapOf(parsedFiles[..i])
    {
      sceneMap := AddRecord(sceneMap, parsedFiles[i]);
      PrefixStep(parsedFiles, i);
      i := i + 1;
    }
    assert parsedFiles[..i] == parsedFiles;
  }

  /** The callback of the first `forEach`: creates the scene entry on the scene's first
      record, then sets the record under its version name. */
  method AddRecord(sceneMap: OrderedMap<SceneEntry>, file: ParsedScene) returns (r: OrderedMap<SceneEntry>)
    requires WellFormed(sceneMap)
    ensures r == AddFile(sceneMap, file)
  {
    r := sceneMap;
    if file.sceneName !in r.entries {
      r := Set(r, file.sceneName, SceneEntry(Empty(), file.order));
    }
    var entry := r.entries[file.sceneName];
    r := Set(r, file.sceneName, entry.(versions := Set(entry.versions, file.versionName, file)));
  }

  /** One more record extends the scene map of a prefix by one `AddFile`. */
  lemma PrefixStep(files: seq<ParsedScene>, i: nat)
    requires i < |files|
    ensures SceneMapOf(files[..i + 1]) == AddFile(SceneMapOf(files[..i]), files[i])
  {
    assert files[..i + 1][..i] == files[..i];
  }

  /** The inner `forEach`: pushes one version per record of a scene, in map order. */
  method CollectVersions(versions: OrderedMap<ParsedScene>) returns (sceneVersions: seq<Version>)
    requires Valid(versions)
    ensures sceneVersions == VersionsInOrder(versions)
  {
    sceneVersions := [];
    var k := 0;
    while k < |versions.keys|
      invariant 0 <= k <= |versions.keys|
      invariant sceneVersions == VersionsInOrder(versions)[..k]
    {
      var file := versions.entries[versions.keys[k]];
      sceneVersions := sceneVersions + [Version(Slug(file.versionName), file.versionName, file.imageUrl)];
      k := k + 1;
    }
  }

  /** The outer `forEach`: pushes one scene per map entry, its versions sorted by name. */
  method CollectScenes(sceneMap: OrderedMap<SceneEntry>) returns (scenes: seq<SceneData>)
    requires WellFormed(sceneMap)
    ensures scenes == ScenesInOrder(sceneMap)
  {
    ghost var unsorted := ScenesInOrder(sceneMap);
    scenes := [];
    var j := 0;
    while j < |sceneMap.keys|
      invariant 0 <= j <= |sceneMap.keys|
      invariant scenes == unsorted[..j]
    {
      var sceneName := sceneMap.keys[j];
      var sceneData := sceneMap.entries[sceneName];
      var sceneVersions := CollectVersions(sceneData.versions);
      sceneVersions := SortSeq(sceneVersions, VersionGreater);
      var scene := SceneData(Slug(sceneName), sceneName, sceneData.order, sceneVersions);
      assert scene == unsorted[j];
      assert unsorted[..j + 1] == unsorted[..j] + [scene];
      scenes := scenes + [scene];
      j := j + 1;
    }
  }

  /** `groupScenesAndVersions`. */
  method GroupScenesAndVersions(parsedFiles: seq<ParsedScene>) returns (scenes: seq<SceneData>)
    ensures scenes == Grouped(parsedFiles)
  {
    var sceneMap := BuildSceneMap(parsedFiles);
    scenes := CollectScenes(sceneMap);
    scenes := SortSeq(scenes, SceneGreater);
  }
}
