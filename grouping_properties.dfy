/** What `groupScenesAndVersions` promises about its result, stated over the input
    records and proved about `Grouped`. */
module GroupingProperties {
  import opened Seqs
  import opened Text
  import opened StableSort
  import opened OrderedMaps
  import opened SceneParser
  import opened SceneGrouping

  /** The scene names occurring in `files`. */
  function SceneNames(files: seq<ParsedScene>): set<string> {
    set f | f in files :: f.sceneName
  }

  /** The version names occurring in `files` for scene `scene`. */
  function VersionNames(files: seq<ParsedScene>, scene: string): set<string> {
    set f | f in files && f.sceneName == scene :: f.versionName
  }

  /** The position of the first record of scene `name`, or `|files|` if there is none. */
  function FirstIndex(files: seq<ParsedScene>, name: string): (r: nat)
    ensures r <= |files|
    ensures r < |files| ==> files[r].sceneName == name
    ensures forall j :: 0 <= j < r ==> files[j].sceneName != name
  {
    if files == [] then 0
    else
      var init := files[..|files| - 1];
      var p := FirstIndex(init, name);
      if p < |init| then p
      else if files[|files| - 1].sceneName == name then |init|
      else |files|
  }

  /** The position of the last record of version `version` of scene `scene`, or -1
      if there is none. */
  function LastIndex(files: seq<ParsedScene>, scene: string, version: string): (r: int)
    ensures -1 <= r < |files|
    ensures r >= 0 ==> files[r].sceneName == scene && files[r].versionName == version
    ensures forall j :: r < j < |files| ==> files[j].sceneName != scene || files[j].versionName != version
  {
    if files == [] then -1
    else if files[|files| - 1].sceneName == scene && files[|files| - 1].versionName == version then |files| - 1
    else LastIndex(files[..|files| - 1], scene, version)
  }

  lemma FirstIndexOfName(files: seq<ParsedScene>, name: string)
    ensures FirstIndex(files, name) < |files| <==> name in SceneNames(files)
  {
    if name in SceneNames(files) {
      var f :| f in files && f.sceneName == name;
      var i :| 0 <= i < |files| && files[i] == f;
    }
  }

  // ----- one step of the fold -----

  /** What one call of `AddFile` changes: the scene's entry, created with the record's
      order when the scene is new, gets the record under its version name. */
  lemma AddFileEffect(m: OrderedMap<SceneEntry>, file: ParsedScene)
    requires WellFormed(m)
    ensures AddsRecord(m, file, AddFile(m, file))
  {
    var name := file.sceneName;
    if name in m.entries {
      var e := m.entries[name];
      var e' := e.(versions := Set(e.versions, file.versionName, file));
      assert AddFile(m, file) == Set(m, name, e');
      assert Set(m, name, e') == OrderedMap(m.keys, m.entries[name := e']);
    } else {
      var e := SceneEntry(Empty(), file.order);
      var e' := e.(versions := Set(e.versions, file.versionName, file));
      var m1 := Set(m, name, e);
      assert m1 == OrderedMap(m.keys + [name], m.entries[name := e]);
      assert AddFile(m, file) == Set(m1, name, e');
      assert Set(m1, name, e') == OrderedMap(m1.keys, m1.entries[name := e']);
    }
  }

  /** `r` is `m` with the scene's entry, created with the record's order when the
      scene is new, holding `file` under its version name. */
  predicate AddsRecord(m: OrderedMap<SceneEntry>, file: ParsedScene, r: OrderedMap<SceneEntry>)
    requires WellFormed(m)
  {
    var name := file.sceneName;
    var entry := if name in m.entries then m.entries[name] else SceneEntry(Empty(), file.order);
    r == OrderedMap(if name in m.entries then m.keys else m.keys + [name],
                    m.entries[name := entry.(versions := Set(entry.versions, file.versionName, file))])
  }

  lemma SceneNamesStep(files: seq<ParsedScene>)
    requires files != []
    ensures SceneNames(files) == SceneNames(files[..|files| - 1]) + {files[|files| - 1].sceneName}
  {
    var init, last := files[..|files| - 1], files[|files| - 1];
    forall n | n in SceneNames(files) ensures n in SceneNames(init) + {last.sceneName} {
      var f :| f in files && f.sceneName == n;
      var i :| 0 <= i < |files| && files[i] == f;
      if i < |init| {
        assert init[i] == f;
      }
    }
    forall n | n in SceneNames(init) ensures n in SceneNames(files) {
      var f :| f in init && f.sceneName == n;
      var i :| 0 <= i < |init| && init[i] == f;
      assert files[i] == f;
    }
  }

  lemma VersionNamesStep(files: seq<ParsedScene>, scene: string)
    requires files != []
    ensures var last := files[|files| - 1];
      VersionNames(files, scene) ==
        VersionNames(files[..|files| - 1], scene) + (if last.sceneName == scene then {last.versionName} else {})
  {
    var init, last := files[..|files| - 1], files[|files| - 1];
    forall v | v in VersionNames(files, scene)
      ensures v in VersionNames(init, scene) + (if last.sceneName == scene then {last.versionName} else {})
    {
      var f :| f in files && f.sceneName == scene && f.versionName == v;
      var i :| 0 <= i < |files| && files[i] == f;
      if i < |init| {
        assert init[i] == f;
      }
    }
    forall v | v in VersionNames(init, scene) ensures v in VersionNames(files, scene) {
      var f :| f in init && f.sceneName == scene && f.versionName == v;
      var i :| 0 <= i < |init| && init[i] == f;
      assert files[i] == f;
    }
  }

  // ----- the scene map built by the fold -----

  lemma KeysStep(m: OrderedMap<SceneEntry>, files: seq<ParsedScene>)
    requires files != []
    requires WellFormed(m) && m.entries.Keys == SceneNames(files[..|files| - 1])
    ensures AddFile(m, files[|files| - 1]).entries.Keys == SceneNames(files)
  {
    var init, last := files[..|files| - 1], files[|files| - 1];
    AddFileEffect(m, last);
    SceneNamesStep(files);
  }

  /** The scene map has an entry for exactly the scene names of the input. */
  lemma {:induction false} SceneMapKeys(files: seq<ParsedScene>)
    ensures SceneMapOf(files).entries.Keys == SceneNames(files)
  {
    if files != [] {
      SceneMapKeys(files[..|files| - 1]);
      KeysStep(SceneMapOf(files[..|files| - 1]), files);
    }
  }

  predicate KeysInFirstOrder(m: OrderedMap<SceneEntry>, files: seq<ParsedScene>) {
    forall i, j :: 0 <= i < j < |m.keys| ==> FirstIndex(files, m.keys[i]) < FirstIndex(files, m.keys[j])
  }

  predicate OrdersOfFirst(m: OrderedMap<SceneEntry>, files: seq<ParsedScene>) {
    forall k :: k in m.entries ==>
      FirstIndex(files, k) < |files| && m.entries[k].order == files[FirstIndex(files, k)].order
  }

  predicate VersionKeysOf(m: OrderedMap<SceneEntry>, files: seq<ParsedScene>)
    requires WellFormed(m)
  {
    forall k :: k in m.entries ==> m.entries[k].versions.entries.Keys == VersionNames(files, k)
  }

  predicate RecordsAreLast(m: OrderedMap<SceneEntry>, files: seq<ParsedScene>)
    requires WellFormed(m)
  {
    forall k, v :: k in m.entries && v in m.entries[k].versions.entries ==>
      0 <= LastIndex(files, k, v) && m.entries[k].versions.entries[v] == files[LastIndex(files, k, v)]
  }

  /** Appending a scene seen for the first time keeps the keys in first-record order. */
  lemma OrderStepKeys(mkeys: seq<string>, rkeys: seq<string>, files: seq<ParsedScene>)
    requires files != []
    requires forall i :: 0 <= i < |mkeys| ==> FirstIndex(files[..|files| - 1], mkeys[i]) < |files| - 1
    requires forall i, j :: 0 <= i < j < |mkeys| ==>
      FirstIndex(files[..|files| - 1], mkeys[i]) < FirstIndex(files[..|files| - 1], mkeys[j])
    requires rkeys == mkeys || (rkeys == mkeys + [files[|files| - 1].sceneName]
      && FirstIndex(files[..|files| - 1], files[|files| - 1].sceneName) == |files| - 1)
    ensures forall i, j :: 0 <= i < j < |rkeys| ==> FirstIndex(files, rkeys[i]) < FirstIndex(files, rkeys[j])
  {
    var init := files[..|files| - 1];
    forall i | 0 <= i < |mkeys| ensures FirstIndex(files, mkeys[i]) == FirstIndex(init, mkeys[i]) {
      FirstIndexKept(files, mkeys[i]);
    }
    if rkeys != mkeys {
      var name := files[|files| - 1].sceneName;
      assert FirstIndex(files, name) == |init|;
      forall i, j | 0 <= i < j < |rkeys| ensures FirstIndex(files, rkeys[i]) < FirstIndex(files, rkeys[j]) {
        assert rkeys[i] == mkeys[i];
        if j < |mkeys| {
          assert rkeys[j] == mkeys[j];
        }
      }
    }
  }

  /** A scene already seen keeps the position of its first record. */
  lemma FirstIndexKept(files: seq<ParsedScene>, name: string)
    requires files != []
    requires FirstIndex(files[..|files| - 1], name) < |files| - 1
    ensures FirstIndex(files, name) == FirstIndex(files[..|files| - 1], name)
  {
  }

  lemma OrderStep(m: OrderedMap<SceneEntry>, files: seq<ParsedScene>)
    requires files != []
    requires WellFormed(m) && m.entries.Keys == SceneNames(files[..|files| - 1])
    requires KeysInFirstOrder(m, files[..|files| - 1])
    ensures KeysInFirstOrder(AddFile(m, files[|files| - 1]), files)
  {
    var init, last := files[..|files| - 1], files[|files| - 1];
    AddFileEffect(m, last);
    forall i | 0 <= i < |m.keys| ensures FirstIndex(init, m.keys[i]) < |init| {
      assert m.keys[i] in m.entries;
      FirstIndexOfName(init, m.keys[i]);
    }
    FirstIndexOfName(init, last.sceneName);
    OrderStepKeys(m.keys, AddFile(m, last).keys, files);
  }

  /** The scene map lists the scenes in the order of their first records. */
  lemma {:induction false} SceneMapOrder(files: seq<ParsedScene>)
    ensures KeysInFirstOrder(SceneMapOf(files), files)
  {
    if files != [] {
      SceneMapOrder(files[..|files| - 1]);
      SceneMapKeys(files[..|files| - 1]);
      OrderStep(SceneMapOf(files[..|files| - 1]), files);
    }
  }

  lemma OrdersStep(m: OrderedMap<SceneEntry>, files: seq<ParsedScene>)
    requires files != []
    requires WellFormed(m) && m.entries.Keys == SceneNames(files[..|files| - 1])
    requires OrdersOfFirst(m, files[..|files| - 1])
    ensures OrdersOfFirst(AddFile(m, files[|files| - 1]), files)
  {
    var init, last := files[..|files| - 1], files[|files| - 1];
    AddFileEffect(m, last);
    var r := AddFile(m, last);
    forall k | k in r.entries
      ensures FirstIndex(files, k) < |files| && r.entries[k].order == files[FirstIndex(files, k)].order
    {
      if k in m.entries {
        var p := FirstIndex(init, k);
        assert FirstIndex(files, k) == p;
        assert files[p] == init[p];
        assert r.entries[k].order == m.entries[k].order;
      } else {
        FirstIndexOfName(init, k);
        assert FirstIndex(files, k) == |init|;
      }
    }
  }

  /** Each scene keeps the order of its first record. */
  lemma {:induction false} SceneMapOrders(files: seq<ParsedScene>)
    ensures OrdersOfFirst(SceneMapOf(files), files)
  {
    if files != [] {
      SceneMapOrders(files[..|files| - 1]);
      SceneMapKeys(files[..|files| - 1]);
      OrdersStep(SceneMapOf(files[..|files| - 1]), files);
    }
  }

  lemma NoVersionNames(files: seq<ParsedScene>, scene: string)
    requires scene !in SceneNames(files)
    ensures VersionNames(files, scene) == {}
  {
  }

  lemma VersionKeysAt(m: OrderedMap<SceneEntry>, files: seq<ParsedScene>, k: string)
    requires files != []
    requires WellFormed(m) && m.entries.Keys == SceneNames(files[..|files| - 1])
    requires VersionKeysOf(m, files[..|files| - 1])
    requires k in AddFile(m, files[|files| - 1]).entries
    ensures AddFile(m, files[|files| - 1]).entries[k].versions.entries.Keys == VersionNames(files, k)
  {
    var last := files[|files| - 1];
    AddFileEffect(m, last);
    VersionNamesStep(files, k);
    if k != last.sceneName {
      VersionKeysOfOther(m, files, k);
    } else {
      VersionKeysOfOwn(m, files);
    }
  }

  /** Another scene's versions are untouched. */
  lemma VersionKeysOfOther(m: OrderedMap<SceneEntry>, files: seq<ParsedScene>, k: string)
    requires files != []
    requires WellFormed(m)
    requires VersionKeysOf(m, files[..|files| - 1])
    requires AddsRecord(m, files[|files| - 1], AddFile(m, files[|files| - 1]))
    requires k in AddFile(m, files[|files| - 1]).entries && k != files[|files| - 1].sceneName
    requires VersionNames(files, k) == VersionNames(files[..|files| - 1], k)
    ensures AddFile(m, files[|files| - 1]).entries[k].versions.entries.Keys == VersionNames(files, k)
  {
    var r := AddFile(m, files[|files| - 1]);
    assert r.entries[k] == m.entries[k];
  }

  /** The record's scene gains its version name. */
  lemma VersionKeysOfOwn(m: OrderedMap<SceneEntry>, files: seq<ParsedScene>)
    requires files != []
    requires WellFormed(m) && m.entries.Keys == SceneNames(files[..|files| - 1])
    requires VersionKeysOf(m, files[..|files| - 1])
    requires AddsRecord(m, files[|files| - 1], AddFile(m, files[|files| - 1]))
    requires var k := files[|files| - 1].sceneName;
      VersionNames(files, k) == VersionNames(files[..|files| - 1], k) + {files[|files| - 1].versionName}
    ensures var k := files[|files| - 1].sceneName;
      AddFile(m, files[|files| - 1]).entries[k].versions.entries.Keys == VersionNames(files, k)
  {
    var init, last := files[..|files| - 1], files[|files| - 1];
    var k := last.sceneName;
    var keys := AddFile(m, last).entries[k].versions.entries.Keys;
    if k in m.entries {
      var vm := m.entries[k].versions;
      assert vm.entries.Keys == VersionNames(init, k);
      assert AddFile(m, last).entries[k].versions == Set(vm, last.versionName, last);
      SetKeys(vm, last.versionName, last);
    } else {
      NoVersionNames(init, k);
      assert AddFile(m, last).entries[k].versions == Set(Empty(), last.versionName, last);
      SetKeys(Empty(), last.versionName, last);
    }
  }

  lemma VersionKeysStep(m: OrderedMap<SceneEntry>, files: seq<ParsedScene>)
    requires files != []
    requires WellFormed(m) && m.entries.Keys == SceneNames(files[..|files| - 1])
    requires VersionKeysOf(m, files[..|files| - 1])
    ensures VersionKeysOf(AddFile(m, files[|files| - 1]), files)
  {
    var r := AddFile(m, files[|files| - 1]);
    forall k | k in r.entries ensures r.entries[k].versions.entries.Keys == VersionNames(files, k) {
      VersionKeysAt(m, files, k);
    }
  }

  /** Each scene has an entry for exactly the version names of its records. */
  lemma {:induction false} SceneMapVersionKeys(files: seq<ParsedScene>)
    ensures VersionKeysOf(SceneMapOf(files), files)
  {
    if files != [] {
      SceneMapVersionKeys(files[..|files| - 1]);
      SceneMapKeys(files[..|files| - 1]);
      VersionKeysStep(SceneMapOf(files[..|files| - 1]), files);
    }
  }

  lemma RecordsStep(m: OrderedMap<SceneEntry>, files: seq<ParsedScene>)
    requires files != []
    requires WellFormed(m)
    requires RecordsAreLast(m, files[..|files| - 1])
    ensures RecordsAreLast(AddFile(m, files[|files| - 1]), files)
  {
    var r := AddFile(m, files[|files| - 1]);
    forall k, v | k in r.entries && v in r.entries[k].versions.entries
      ensures 0 <= LastIndex(files, k, v) && r.entries[k].versions.entries[v] == files[LastIndex(files, k, v)]
    {
      RecordAt(m, files, k, v);
    }
  }

  lemma RecordAt(m: OrderedMap<SceneEntry>, files: seq<ParsedScene>, k: string, v: string)
    requires files != []
    requires WellFormed(m)
    requires RecordsAreLast(m, files[..|files| - 1])
    requires k in AddFile(m, files[|files| - 1]).entries
    requires v in AddFile(m, files[|files| - 1]).entries[k].versions.entries
    ensures var r := AddFile(m, files[|files| - 1]);
      0 <= LastIndex(files, k, v) && r.entries[k].versions.entries[v] == files[LastIndex(files, k, v)]
  {
    var last := files[|files| - 1];
    AddFileEffect(m, last);
    if k == last.sceneName && v == last.versionName {
      assert LastIndex(files, k, v) == |files| - 1;
    } else {
      RecordAtOld(m, files, k, v);
    }
  }

  /** A record other than the last keeps its place and its last occurrence. */
  lemma RecordAtOld(m: OrderedMap<SceneEntry>, files: seq<ParsedScene>, k: string, v: string)
    requires files != []
    requires WellFormed(m)
    requires RecordsAreLast(m, files[..|files| - 1])
    requires k != files[|files| - 1].sceneName || v != files[|files| - 1].versionName
    requires var r := AddFile(m, files[|files| - 1]); k in r.entries && v in r.entries[k].versions.entries
    requires AddsRecord(m, files[|files| - 1], AddFile(m, files[|files| - 1]))
    ensures var r := AddFile(m, files[|files| - 1]);
      0 <= LastIndex(files, k, v) && r.entries[k].versions.entries[v] == files[LastIndex(files, k, v)]
  {
    var init, last := files[..|files| - 1], files[|files| - 1];
    var r := AddFile(m, last);
    if k == last.sceneName {
      var entry := if k in m.entries then m.entries[k] else SceneEntry(Empty(), last.order);
      assert r.entries[k].versions == Set(entry.versions, last.versionName, last);
      assert v != last.versionName;
      assert v in entry.versions.entries;
    } else {
      assert r.entries[k] == m.entries[k];
    }
    assert k in m.entries && v in m.entries[k].versions.entries;
    assert r.entries[k].versions.entries[v] == m.entries[k].versions.entries[v];
    var p := LastIndex(init, k, v);
    assert LastIndex(files, k, v) == p;
    assert files[p] == init[p];
  }

  /** Each version holds the last record with its scene and version names. */
  lemma {:induction false} SceneMapRecords(files: seq<ParsedScene>)
    ensures RecordsAreLast(SceneMapOf(files), files)
  {
    if files != [] {
      SceneMapRecords(files[..|files| - 1]);
      RecordsStep(SceneMapOf(files[..|files| - 1]), files);
    }
  }

  // ----- the comparators -----

  /** Comparing version names with `localeCompare` is a consistent comparator. */
  lemma VersionGreaterIsTotalPreorder()
    ensures IsTotalPreorder(VersionGreater)
  {
    forall a: Version, b: Version ensures !VersionGreater(a, b) || !VersionGreater(b, a) {
      StrLeTotal(a.name, b.name);
    }
    forall a: Version, b: Version, c: Version | !VersionGreater(a, b) && !VersionGreater(b, c)
      ensures !VersionGreater(a, c)
    {
      StrLeTransitive(a.name, b.name, c.name);
    }
  }

  /** Comparing scenes by `a.order - b.order` is a consistent comparator. */
  lemma SceneGreaterIsTotalPreorder()
    ensures IsTotalPreorder(SceneGreater)
  {
  }

  // ----- the versions of one scene -----

  /** The versions pushed for one scene are sorted strictly by name, one per stored
      record, each built from the record stored under its name. */
  lemma SortedVersions(vm: OrderedMap<ParsedScene>, scene: string)
    requires VersionsKeyed(vm, scene)
    ensures var vs := Sort(VersionsInOrder(vm), VersionGreater);
      && (set v | v in vs :: v.name) == vm.entries.Keys
      && (forall i, j :: 0 <= i < j < |vs| ==> StrLe(vs[i].name, vs[j].name) && vs[i].name != vs[j].name)
      && (forall v :: v in vs ==> v.name in vm.entries && v == VersionOf(vm.entries[v.name]))
  {
    SortedVersionsMembers(vm, scene);
    SortedVersionsOrdered(vm, scene);
  }

  lemma SortedVersionsMembers(vm: OrderedMap<ParsedScene>, scene: string)
    requires VersionsKeyed(vm, scene)
    ensures var vs := Sort(VersionsInOrder(vm), VersionGreater);
      && (set v | v in vs :: v.name) == vm.entries.Keys
      && (forall v :: v in vs ==> v.name in vm.entries && v == VersionOf(vm.entries[v.name]))
  {
    var u := VersionsInOrder(vm);
    var vs := Sort(u, VersionGreater);
    SortMembers(u, VersionGreater);
    forall v | v in vs ensures v.name in vm.entries && v == VersionOf(vm.entries[v.name]) {
      var i :| 0 <= i < |u| && u[i] == v;
      assert vm.keys[i] in vm.entries;
    }
    forall n | n in vm.entries.Keys ensures n in (set v | v in vs :: v.name) {
      var i :| 0 <= i < |vm.keys| && vm.keys[i] == n;
      assert u[i] in vs;
    }
  }

  lemma SortedVersionsOrdered(vm: OrderedMap<ParsedScene>, scene: string)
    requires VersionsKeyed(vm, scene)
    ensures var vs := Sort(VersionsInOrder(vm), VersionGreater);
      forall i, j :: 0 <= i < j < |vs| ==> StrLe(vs[i].name, vs[j].name) && vs[i].name != vs[j].name
  {
    var u := VersionsInOrder(vm);
    assert forall i :: 0 <= i < |u| ==> u[i].name == vm.keys[i];
    assert KeysDistinct(u, (v: Version) => v.name);
    SortKeepsKeysDistinct(u, VersionGreater, (v: Version) => v.name);
    VersionGreaterIsTotalPreorder();
    SortSorted(u, VersionGreater);
  }

  // ----- the scenes -----

  /** No records, no scenes. */
  lemma GroupedEmpty()
    ensures Grouped([]) == []
  {
  }

  lemma ScenesInOrderMembers(m: OrderedMap<SceneEntry>)
    requires WellFormed(m)
    ensures forall s :: s in ScenesInOrder(m) <==> s.name in m.entries && s == SceneOf(s.name, m.entries[s.name])
  {
    var u := ScenesInOrder(m);
    forall s: SceneData | s.name in m.entries && s == SceneOf(s.name, m.entries[s.name]) ensures s in u {
      var i :| 0 <= i < |m.keys| && m.keys[i] == s.name;
      assert u[i] == s;
    }
  }

  /** Before sorting: one scene per key of the map, with distinct names. */
  lemma ScenesInOrderNames(m: OrderedMap<SceneEntry>)
    requires WellFormed(m)
    ensures var u := ScenesInOrder(m);
      && (set s | s in u :: s.name) == m.entries.Keys
      && KeysDistinct(u, (s: SceneData) => s.name)
      && |u| == |m.entries.Keys|
  {
    ScenesInOrderNameSet(m);
    var u := ScenesInOrder(m);
    assert forall i :: 0 <= i < |u| ==> u[i].name == m.keys[i];
    KeyCount(m);
  }

  lemma ScenesInOrderNameSet(m: OrderedMap<SceneEntry>)
    requires WellFormed(m)
    ensures (set s | s in ScenesInOrder(m) :: s.name) == m.entries.Keys
  {
    var u := ScenesInOrder(m);
    forall n | n in m.entries ensures n in (set s | s in u :: s.name) {
      var i :| 0 <= i < |m.keys| && m.keys[i] == n;
      assert u[i].name == n;
    }
  }

  /** `groupScenesAndVersions` returns one scene per scene name of its input, and no
      two scenes with the same name. */
  lemma GroupedSceneNames(files: seq<ParsedScene>)
    ensures var g := Grouped(files);
      && (set s | s in g :: s.name) == SceneNames(files)
      && (forall i, j :: 0 <= i < j < |g| ==> g[i].name != g[j].name)
      && |g| == |SceneNames(files)|
  {
    var m := SceneMapOf(files);
    SceneMapKeys(files);
    ScenesInOrderNames(m);
    GroupedNamesOfMap(m);
  }

  /** Sorting keeps the scene names of the map, and keeps them apart. */
  lemma GroupedNamesOfMap(m: OrderedMap<SceneEntry>)
    requires WellFormed(m)
    requires var u := ScenesInOrder(m);
      && (set s | s in u :: s.name) == m.entries.Keys
      && KeysDistinct(u, (s: SceneData) => s.name)
    ensures var g := Sort(ScenesInOrder(m), SceneGreater);
      && (set s | s in g :: s.name) == m.entries.Keys
      && (forall i, j :: 0 <= i < j < |g| ==> g[i].name != g[j].name)
  {
    var u := ScenesInOrder(m);
    var g := Sort(u, SceneGreater);
    SortKeepsKeysDistinct(u, SceneGreater, (s: SceneData) => s.name);
    SortMembers(u, SceneGreater);
    assert (set s | s in g :: s.name) == (set s | s in u :: s.name);
  }

  /** Each scene's id is the slug of its name, and its order is that of the first
      record of the scene. */
  lemma GroupedSceneFields(files: seq<ParsedScene>)
    ensures forall s :: s in Grouped(files) ==>
      && s.name in SceneNames(files)
      && s.id == Slug(s.name)
      && FirstIndex(files, s.name) < |files|
      && s.order == files[FirstIndex(files, s.name)].order
  {
    var m := SceneMapOf(files);
    SceneMapKeys(files);
    SceneMapOrders(files);
    SortMembers(ScenesInOrder(m), SceneGreater);
    ScenesInOrderMembers(m);
  }

  /** The scenes come in increasing order, and scenes with the same order come in the
      order of their first records. */
  lemma GroupedSceneOrder(files: seq<ParsedScene>)
    ensures var g := Grouped(files);
      && (forall i, j :: 0 <= i < j < |g| ==> g[i].order <= g[j].order)
      && (forall i, j :: 0 <= i < j < |g| && g[i].order == g[j].order ==>
            FirstIndex(files, g[i].name) < FirstIndex(files, g[j].name))
  {
    var m := SceneMapOf(files);
    var u := ScenesInOrder(m);
    var rank := (s: SceneData) => FirstIndex(files, s.name);
    SceneMapOrder(files);
    assert forall i :: 0 <= i < |u| ==> u[i].name == m.keys[i];
    SceneGreaterIsTotalPreorder();
    SortSorted(u, SceneGreater);
    SortStable(u, SceneGreater, rank);
  }

  /** What a scene's versions are: sorted strictly by name, one for each version name
      of the scene's records, with the slug of the name as id and the image of the
      last record with that scene and version name. */
  predicate VersionsOfScene(files: seq<ParsedScene>, s: SceneData) {
    && (set v | v in s.versions :: v.name) == VersionNames(files, s.name)
    && (forall i, j :: 0 <= i < j < |s.versions| ==>
          StrLe(s.versions[i].name, s.versions[j].name) && s.versions[i].name != s.versions[j].name)
    && (forall v :: v in s.versions ==>
          && v.id == Slug(v.name)
          && 0 <= LastIndex(files, s.name, v.name)
          && v.imageUrl == files[LastIndex(files, s.name, v.name)].imageUrl)
  }

  lemma GroupedVersions(files: seq<ParsedScene>)
    ensures forall s :: s in Grouped(files) ==> VersionsOfScene(files, s)
  {
    var m := SceneMapOf(files);
    SceneMapVersionKeys(files);
    SceneMapRecords(files);
    SortMembers(ScenesInOrder(m), SceneGreater);
    ScenesInOrderMembers(m);
    forall s | s in Grouped(files) ensures VersionsOfScene(files, s) {
      var vm := m.entries[s.name].versions;
      SortedVersions(vm, s.name);
    }
  }

  // ----- counting versions -----

  /** The distinct (scene name, version name) pairs of the input. */
  function Pairs(files: seq<ParsedScene>): set<(string, string)> {
    set f | f in files :: (f.sceneName, f.versionName)
  }

  /** The pairs whose scene is in `scenes`. */
  function PairsWithin(files: seq<ParsedScene>, scenes: set<string>): set<(string, string)> {
    set f | f in files && f.sceneName in scenes :: (f.sceneName, f.versionName)
  }

  lemma {:induction false} TaggedCardinality(names: set<string>, scene: string)
    ensures |set v | v in names :: (scene, v)| == |names|
    decreases |names|
  {
    if names != {} {
      var x :| x in names;
      var rest := names - {x};
      TaggedCardinality(rest, scene);
      assert (set v | v in names :: (scene, v)) == (set v | v in rest :: (scene, v)) + {(scene, x)};
    }
  }

  lemma PairsOfOneScene(files: seq<ParsedScene>, scenes: set<string>, scene: string)
    requires scene !in scenes
    ensures PairsWithin(files, scenes + {scene}) ==
      PairsWithin(files, scenes) + set v | v in VersionNames(files, scene) :: (scene, v)
    ensures |PairsWithin(files, scenes + {scene})| == |PairsWithin(files, scenes)| + |VersionNames(files, scene)|
  {
    var tagged := set v | v in VersionNames(files, scene) :: (scene, v);
    forall p | p in tagged ensures p in PairsWithin(files, scenes + {scene}) {
      var v :| v in VersionNames(files, scene) && p == (scene, v);
      var f :| f in files && f.sceneName == scene && f.versionName == v;
    }
    assert PairsWithin(files, scenes) !! tagged;
    TaggedCardinality(VersionNames(files, scene), scene);
  }

  lemma {:induction false} CountOverScenes(files: seq<ParsedScene>, scenes: seq<string>)
    requires Distinct(scenes)
    ensures Sum(scenes, (k: string) => |VersionNames(files, k)|) == |PairsWithin(files, set k | k in scenes)|
  {
    if scenes == [] {
      assert PairsWithin(files, {}) == {};
    } else {
      var init, last := scenes[..|scenes| - 1], scenes[|scenes| - 1];
      assert Distinct(init);
      CountOverScenes(files, init);
      assert (set k | k in scenes) == (set k | k in init) + {last};
      PairsOfOneScene(files, (set k | k in init), last);
    }
  }

  /** Each scene of a scene map whose version keys are those of `files` contributes
      one version per version name. */
  lemma ScenesInOrderCounts(files: seq<ParsedScene>, m: OrderedMap<SceneEntry>)
    requires WellFormed(m) && VersionKeysOf(m, files)
    ensures forall i :: 0 <= i < |m.keys| ==>
      |ScenesInOrder(m)[i].versions| == |VersionNames(files, m.keys[i])|
  {
    forall i | 0 <= i < |m.keys| ensures |ScenesInOrder(m)[i].versions| == |VersionNames(files, m.keys[i])| {
      var vm := m.entries[m.keys[i]].versions;
      KeyCount(vm);
    }
  }

  /** Across all scenes there are as many versions as distinct (scene, version) pairs
      in the input. */
  lemma GroupedVersionCount(files: seq<ParsedScene>)
    ensures Sum(Grouped(files), (s: SceneData) => |s.versions|) == |Pairs(files)|
  {
    var m := SceneMapOf(files);
    SortSum(ScenesInOrder(m), SceneGreater, (s: SceneData) => |s.versions|);
    SceneMapVersionKeys(files);
    SceneMapKeys(files);
    ScenesInOrderVersionCount(files, m);
    KeysVersionCount(files, m);
  }

  lemma ScenesInOrderVersionCount(files: seq<ParsedScene>, m: OrderedMap<SceneEntry>)
    requires WellFormed(m) && VersionKeysOf(m, files)
    ensures Sum(ScenesInOrder(m), (s: SceneData) => |s.versions|)
      == Sum(m.keys, (k: string) => |VersionNames(files, k)|)
  {
    ScenesInOrderCounts(files, m);
    SumPointwise(ScenesInOrder(m), (s: SceneData) => |s.versions|, m.keys, (k: string) => |VersionNames(files, k)|);
  }

  lemma KeysVersionCount(files: seq<ParsedScene>, m: OrderedMap<SceneEntry>)
    requires WellFormed(m) && m.entries.Keys == SceneNames(files)
    ensures Sum(m.keys, (k: string) => |VersionNames(files, k)|) == |Pairs(files)|
  {
    CountOverScenes(files, m.keys);
    assert (set k | k in m.keys) == SceneNames(files);
    assert PairsWithin(files, SceneNames(files)) == Pairs(files);
  }
}
