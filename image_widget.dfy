/** The selection state of the image widget: which scene and which version are shown,
    and whether the shown image is still loading, over the fixed scene table. */
module SceneWidget {

  datatype Version = Version(id: string, name: string, imageUrl: string)

  datatype Scene = Scene(id: string, name: string, versions: seq<Version>)

  /** The widget's fixed table of scenes. */
  const SceneTable: seq<Scene> := [
    Scene("master-bedroom", "Master Bedroom", [
      Version("opt-a", "Opt A", "https://images.unsplash.com/photo-1649972904349-6e44c42644a7?w=800&h=600&fit=crop"),
      Version("opt-b", "Opt B", "https://images.unsplash.com/photo-1581091226825-a6a2a5aee158?w=800&h=600&fit=crop"),
      Version("opt-c", "Opt C", "https://images.unsplash.com/photo-1721322800607-8c38375eef04?w=800&h=600&fit=crop")
    ]),
    Scene("northeast-bedroom", "Northeast Bedroom", [
      Version("opt-a", "Opt A", "https://images.unsplash.com/photo-1488590528505-98d2b5aba04b?w=800&h=600&fit=crop"),
      Version("opt-b", "Opt B", "https://images.unsplash.com/photo-1518770660439-4636190af475?w=800&h=600&fit=crop"),
      Version("opt-c", "Opt C", "https://images.unsplash.com/photo-1461749280684-dccba630e2f6?w=800&h=600&fit=crop")
    ]),
    Scene("southeast-bedroom", "Southeast Bedroom", [
      Version("opt-a", "Opt A", "https://images.unsplash.com/photo-1649972904349-6e44c42644a7?w=800&h=600&fit=crop"),
      Version("opt-b", "Opt B", "https://images.unsplash.com/photo-1721322800607-8c38375eef04?w=800&h=600&fit=crop"),
      Version("opt-c", "Opt C", "https://images.unsplash.com/photo-1581091226825-a6a2a5aee158?w=800&h=600&fit=crop")
    ])
  ]

  /** Every scene has a version to show first, and the ids used as keys of the
      rendered buttons are unique: scene ids across the table, version ids within
      each scene. */
  predicate TableWellFormed(table: seq<Scene>) {
    && (forall i :: 0 <= i < |table| ==> |table[i].versions| >= 1)
    && (forall i, j :: 0 <= i < j < |table| ==> table[i].id != table[j].id)
    && (forall i :: 0 <= i < |table| ==> VersionIdsDistinct(table[i].versions))
  }

  predicate VersionIdsDistinct(versions: seq<Version>) {
    forall i, j :: 0 <= i < j < |versions| ==> versions[i].id != versions[j].id
  }

  lemma SceneTableWellFormed()
    ensures |SceneTable| == 3
    ensures TableWellFormed(SceneTable)
  {
    assert SceneTable[0].id[0] == 'm' && SceneTable[1].id[0] == 'n' && SceneTable[2].id[0] == 's';
    forall i | 0 <= i < |SceneTable| ensures |SceneTable[i].versions| >= 1 && VersionIdsDistinct(SceneTable[i].versions) {
      OptionsDistinct(SceneTable[i].versions);
    }
  }

  /** The three options of every scene have the ids `opt-a`, `opt-b`, `opt-c`. */
  lemma OptionsDistinct(vs: seq<Version>)
    requires vs == SceneTable[0].versions || vs == SceneTable[1].versions || vs == SceneTable[2].versions
    ensures |vs| == 3 && VersionIdsDistinct(vs)
  {
    assert vs[0].id == "opt-a" && vs[1].id == "opt-b" && vs[2].id == "opt-c";
    assert vs[0].id[4] == 'a' && vs[1].id[4] == 'b' && vs[2].id[4] == 'c';
  }

  class ImageWidget {
    var selectedSceneIndex: int
    var selectedVersionIndex: int
    var isImageLoading: bool

    /** Both indices point into the table, so the current image exists. */
    ghost predicate Valid()
      reads this
    {
      && 0 <= selectedSceneIndex < |SceneTable|
      && 0 <= selectedVersionIndex < |SceneTable[selectedSceneIndex].versions|
    }

    /** The first render: first scene, first version, not loading. */
    constructor()
      ensures Valid()
      ensures selectedSceneIndex == 0 && selectedVersionIndex == 0 && !isImageLoading
    {
      selectedSceneIndex := 0;
      selectedVersionIndex := 0;
      isImageLoading := false;
    }

    function CurrentScene(): (s: Scene)
      reads this
      requires Valid()
      ensures s in SceneTable
    {
      SceneTable[selectedSceneIndex]
    }

    function CurrentImage(): (v: Version)
      reads this
      requires Valid()
      ensures v in CurrentScene().versions
    {
      CurrentScene().versions[selectedVersionIndex]
    }

    /** A click on the button of scene `sceneIndex`: another scene is selected with
        its first version, and its image starts loading; the selected scene again
        changes nothing. */
    method HandleSceneChange(sceneIndex: int)
      requires Valid()
      requires 0 <= sceneIndex < |SceneTable|
      modifies this
      ensures Valid()
      ensures sceneIndex != old(selectedSceneIndex) ==>
        selectedSceneIndex == sceneIndex && selectedVersionIndex == 0 && isImageLoading
      ensures sceneIndex == old(selectedSceneIndex) ==>
        selectedSceneIndex == old(selectedSceneIndex)
        && selectedVersionIndex == old(selectedVersionIndex)
        && isImageLoading == old(isImageLoading)
    {
      if sceneIndex != selectedSceneIndex {
        SceneTableWellFormed();
        isImageLoading := true;
        selectedSceneIndex := sceneIndex;
        selectedVersionIndex := 0;
      }
    }

    /** A click on the button of version `versionIndex` of the current scene: another
        version is selected and starts loading; the selected version again changes
        nothing. The scene never changes. */
    method HandleVersionChange(versionIndex: int)
      requires Valid()
      requires 0 <= versionIndex < |CurrentScene().versions|
      modifies this
      ensures Valid()
      ensures selectedSceneIndex == old(selectedSceneIndex)
      ensures versionIndex != old(selectedVersionIndex) ==>
        selectedVersionIndex == versionIndex && isImageLoading
      ensures versionIndex == old(selectedVersionIndex) ==>
        selectedVersionIndex == old(selectedVersionIndex) && isImageLoading == old(isImageLoading)
    {
      if versionIndex != selectedVersionIndex {
        isImageLoading := true;
        selectedVersionIndex := versionIndex;
      }
    }

    /** The image has loaded: loading ends and the selection stays. */
    method HandleImageLoad()
      requires Valid()
      modifies this
      ensures Valid()
      ensures !isImageLoading
      ensures selectedSceneIndex == old(selectedSceneIndex)
      ensures selectedVersionIndex == old(selectedVersionIndex)
    {
      isImageLoading := false;
    }
  }
}
