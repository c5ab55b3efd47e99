/**
 Which voices the left-hand panel of `tts_gui.py` shows and where
 (`update_voice_list`): the scene, gender and type filters and the search
 box are applied one after the other, and the voices left are grouped by
 cleaned scene and laid out three to a row.
 */
module VoiceList {
  import opened Common
  import opened Strings
  import opened Grouping
  import opened Catalogue

  /** The combo-box values that switch a filter off. */
  const AnyScene: string := "全部场景"
  const AnyGender: string := "全部性别"
  const AnyType: string := "全部类型"

  /** The panel's state: the three combo-box choices (`None` before the
      first change) and the text of the search box. */
  datatype Filters = Filters(scene: Option<string>, gender: Option<string>, voiceType: Option<string>, search: string)

  /** A choice filters only when it is set, not empty and not the "all" value. */
  predicate Selects(choice: Option<string>, any: string)
  {
    choice.Some? && choice.value != "" && choice.value != any
  }

  /** The search text as it is compared: stripped and lower-cased. */
  function Query(f: Filters): string
  {
    Lower(Strip(f.search))
  }

  predicate SceneOk(f: Filters, v: VoiceInfo)
  {
    !Selects(f.scene, AnyScene) || CleanScene(v.scene) == f.scene.value
  }

  predicate GenderOk(f: Filters, v: VoiceInfo)
  {
    !Selects(f.gender, AnyGender) || v.Gender() == f.gender.value
  }

  predicate TypeOk(f: Filters, v: VoiceInfo)
  {
    !Selects(f.voiceType, AnyType) || v.voiceType == f.voiceType.value
  }

  /** The query occurs, ignoring case, in the name or the (uncleaned) scene. */
  predicate SearchOk(f: Filters, v: VoiceInfo)
  {
    Query(f) == "" || Contains(Lower(v.name), Query(f)) || Contains(Lower(v.scene), Query(f))
  }

  /** A voice is shown when it passes every active filter. */
  predicate Passes(f: Filters, v: VoiceInfo)
  {
    SceneOk(f, v) && GenderOk(f, v) && TypeOk(f, v) && SearchOk(f, v)
  }

  function SceneTest(f: Filters): VoiceInfo -> bool { v => SceneOk(f, v) }
  function GenderTest(f: Filters): VoiceInfo -> bool { v => GenderOk(f, v) }
  function TypeTest(f: Filters): VoiceInfo -> bool { v => TypeOk(f, v) }
  function SearchTest(f: Filters): VoiceInfo -> bool { v => SearchOk(f, v) }
  function SceneGenderTest(f: Filters): VoiceInfo -> bool { v => SceneOk(f, v) && GenderOk(f, v) }
  function SceneGenderTypeTest(f: Filters): VoiceInfo -> bool { v => SceneOk(f, v) && GenderOk(f, v) && TypeOk(f, v) }
  function PassTest(f: Filters): VoiceInfo -> bool { v => Passes(f, v) }

  /** The four filter passes of `update_voice_list`, in source order; each
      pass runs only when its filter is active. */
  function Pipeline(voices: seq<VoiceInfo>, f: Filters): seq<VoiceInfo>
  {
    var byScene := if Selects(f.scene, AnyScene) then Filter(voices, SceneTest(f)) else voices;
    var byGender := if Selects(f.gender, AnyGender) then Filter(byScene, GenderTest(f)) else byScene;
    var byType := if Selects(f.voiceType, AnyType) then Filter(byGender, TypeTest(f)) else byGender;
    if Query(f) != "" then Filter(byType, SearchTest(f)) else byType
  }

  /** The voices to display: exactly the voices that pass every active
      filter, in catalogue order. */
  function Displayed(voices: seq<VoiceInfo>, f: Filters): (shown: seq<VoiceInfo>)
    ensures shown == Filter(voices, PassTest(f))
    ensures IsSubsequence(shown, voices)
    ensures forall v :: v in shown <==> v in voices && Passes(f, v)
  {
    PipelineIsFilter(voices, f);
    FilterIsSubsequence(voices, PassTest(f));
    Pipeline(voices, f)
  }

  /** Running the passes one after another is filtering once by all of them. */
  lemma PipelineIsFilter(voices: seq<VoiceInfo>, f: Filters)
    ensures Pipeline(voices, f) == Filter(voices, PassTest(f))
  {
    var a := Filter(voices, SceneTest(f));
    if !Selects(f.scene, AnyScene) {
      FilterAll(voices, SceneTest(f));
    }
    var b := Filter(a, GenderTest(f));
    if !Selects(f.gender, AnyGender) {
      FilterAll(a, GenderTest(f));
    }
    FilterFilter(voices, SceneTest(f), GenderTest(f), SceneGenderTest(f));
    var c := Filter(b, TypeTest(f));
    if !Selects(f.voiceType, AnyType) {
      FilterAll(b, TypeTest(f));
    }
    FilterFilter(voices, SceneGenderTest(f), TypeTest(f), SceneGenderTypeTest(f));
    if Query(f) == "" {
      FilterAll(c, SearchTest(f));
    }
    FilterFilter(voices, SceneGenderTypeTest(f), SearchTest(f), PassTest(f));
  }

  /** With every filter off and an empty search box, all voices are shown. */
  lemma NoFilterShowsAll(voices: seq<VoiceInfo>, search: string)
    requires IsBlank(search)
    ensures Displayed(voices, Filters(None, None, None, search)) == voices
  {
    var f := Filters(None, None, None, search);
    assert Strip(search) == "";
    assert Query(f) == "";
    FilterAll(voices, PassTest(f));
  }

  /** The scene filter compares the cleaned scene, so choosing a scene shows
      exactly the catalogue's list for that scene. */
  lemma SceneFilterMatchesCatalogue(voices: seq<VoiceInfo>, scene: string)
    requires scene != "" && scene != AnyScene
    ensures Displayed(voices, Filters(Some(scene), None, None, "")) == Filter(voices, KeyIs(SceneKey(), scene))
  {
    var f := Filters(Some(scene), None, None, "");
    assert Strip("") == "";
    assert Query(f) == "";
    var shown := Displayed(voices, f);
    FilterSame(voices, PassTest(f), KeyIs(SceneKey(), scene));
  }

  // ---------------------------------------------------------------------
  // Grouping and layout.

  /** `scene_groups`: the shown voices grouped by cleaned scene, the groups
      in the order their scenes first appear. */
  function SceneGroups(shown: seq<VoiceInfo>): (gs: seq<Group<VoiceInfo>>)
    ensures GroupedInOrder(shown, SceneKey(), gs)
  {
    GroupsInOrder(shown, SceneKey());
    Groups(shown, SceneKey())
  }

  /** Every shown voice is in exactly one group, the one of its cleaned scene. */
  lemma EveryVoiceOnce(shown: seq<VoiceInfo>, v: VoiceInfo, i: nat)
    requires v in shown && i < |SceneGroups(shown)|
    ensures v in SceneGroups(shown)[i].members <==> SceneGroups(shown)[i].key == CleanScene(v.scene)
    ensures KeyIndex(SceneGroups(shown), CleanScene(v.scene)) < |SceneGroups(shown)|
  {
    ExactlyOneGroup(shown, SceneKey(), v, i);
  }

  /** The grid cell of the `i`-th card of a group: three cards to a row. */
  function GridCell(i: nat): (cell: (nat, nat))
    ensures cell.1 < 3
    ensures 3 * cell.0 + cell.1 == i
  {
    (i / 3, i % 3)
  }

  /** No two cards of a group share a cell. */
  lemma GridCellsDistinct(i: nat, j: nat)
    requires GridCell(i) == GridCell(j)
    ensures i == j
  {
  }
}
