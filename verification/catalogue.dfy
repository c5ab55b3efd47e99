/**
 The voice catalogue of `tts_gui.py`: a `VoiceInfo` per row of the voice
 table, the gender rule, the cleaning of a recommended scene, and what
 `load_voice_types` builds from the rows (the voice list, the voices per
 scene, and the sorted scene and type lists).
 */
module Catalogue {
  import opened Common
  import opened Strings
  import opened Order
  import opened Grouping

  type Row = seq<string>

  const Male: string := "男声"
  const Female: string := "女声"

  /** One voice of the catalogue, the seven columns of its row. */
  datatype VoiceInfo = VoiceInfo(
    voiceId: string,
    name: string,
    scene: string,
    voiceType: string,
    language: string,
    sampleRate: string,
    emotion: string)
  {
    /** The voice is male only when its scene says "男声" and never says
        "女声"; every other voice, including one whose scene names no
        gender, is female. */
    function Gender(): (g: string)
      ensures g == Male || g == Female
      ensures g == Male <==> Contains(scene, Male) && !Contains(scene, Female)
    {
      if Contains(scene, Female) || !Contains(scene, Male) then Female else Male
    }

    predicate IsFemale()
    {
      Gender() == Female
    }
  }

  /** `is_female` agrees with the gender rule. */
  lemma FemaleUnlessMale(v: VoiceInfo)
    ensures v.IsFemale() <==> !(Contains(v.scene, Male) && !Contains(v.scene, Female))
  {
  }

  /** The scene with both gender words removed and the rest stripped, as the
      catalogue and the scene filter both compute it. */
  function CleanScene(scene: string): (r: string)
    ensures |r| <= |scene|
    ensures r == [] || (!IsSpace(r[0]) && !IsSpace(r[|r| - 1]))
  {
    Strip(RemoveAll(RemoveAll(scene, Male), Female))
  }

  /** A scene that names no gender is only stripped. */
  lemma CleanSceneWithoutGender(scene: string)
    requires !Contains(scene, Male) && !Contains(scene, Female)
    ensures CleanScene(scene) == Strip(scene)
  {
  }

  /** One of the characters the gender words are made of. */
  predicate IsGenderChar(c: char)
  {
    c == '男' || c == '女' || c == '声'
  }

  predicate NoGenderChar(s: string)
  {
    forall i :: 0 <= i < |s| ==> !IsGenderChar(s[i])
  }

  /** A gender word anywhere in a scene is deleted, and what is left is
      stripped: "通用女声 " and " 男声通用" both become "通用". */
  lemma CleanSceneRemovesGender(x: string, g: string, y: string)
    requires g == Male || g == Female
    requires NoGenderChar(x) && NoGenderChar(y)
    ensures CleanScene(x + g + y) == Strip(x + y)
  {
    var s := x + g + y;
    AbsentWithoutChar(y, Male, 0);
    AbsentWithoutChar(y, Female, 0);
    AbsentWithoutChar(x + y, Female, 0);
    if g == Male {
      assert Male[..|Male| - 1] == "男";
      AbsentWithoutChar(x + "男", Male, 1);
      RemoveAllDeletes(x, Male, y);
    } else {
      AbsentWithoutChar(s, Male, 0);
      assert Female[..|Female| - 1] == "女";
      AbsentWithoutChar(x + "女", Female, 1);
      RemoveAllDeletes(x, Female, y);
    }
  }

  /** The words are deleted in one pass each, so deleting one occurrence
      can bring another together: "男男声声" keeps a "男声". */
  lemma CleanSceneSinglePass()
    ensures CleanScene("男男声声") == Male
  {
    var s := "男男声声";
    assert s[1] != Male[1];
    assert s[1..] == "男声声";
    assert Male <= s[1..] && s[1..][2..] == "声";
    assert RemoveAll("声", Male) == "声";
    assert RemoveAll(s, Male) == Male;
    AbsentWithoutChar(Male, Female, 0);
    StripIdentity(Male);
  }

  /** The cleaned scene of a voice, the key voices are grouped by. */
  function SceneKey(): VoiceInfo -> string
  {
    (v: VoiceInfo) => CleanScene(v.scene)
  }

  /** A row that yields a voice: at least seven columns. */
  predicate IsVoiceRow(row: Row)
  {
    |row| >= 7
  }

  predicate AllVoiceRows(rows: seq<Row>)
  {
    forall k :: 0 <= k < |rows| ==> IsVoiceRow(rows[k])
  }

  predicate NoVoiceRow(rows: seq<Row>)
  {
    forall k :: 0 <= k < |rows| ==> !IsVoiceRow(rows[k])
  }

  function RowToVoice(row: Row): VoiceInfo
    requires IsVoiceRow(row)
  {
    VoiceInfo(row[0], row[1], row[2], row[3], row[4], row[5], row[6])
  }

  /** The voices of the data rows, in order; shorter rows are skipped, so a
      table whose every row has seven columns yields one voice per row, and
      a table without such a row yields none. */
  function Voices(rows: seq<Row>): (vs: seq<VoiceInfo>)
    ensures |vs| <= |rows|
    ensures AllVoiceRows(rows) ==> |vs| == |rows| && forall k :: 0 <= k < |rows| ==> vs[k] == RowToVoice(rows[k])
    ensures NoVoiceRow(rows) ==> vs == []
    decreases |rows|
  {
    if rows == [] then []
    else RowVoices(rows[0]) + Voices(rows[1..])
  }

  /** What one row contributes: its voice, or nothing for a short row. */
  function RowVoices(row: Row): (vs: seq<VoiceInfo>)
    ensures |vs| <= 1 && (vs != [] <==> IsVoiceRow(row))
  {
    if IsVoiceRow(row) then [RowToVoice(row)] else []
  }

  /** The loop over rows, one row at a time: a row of seven or more columns
      adds its voice at the end, any other row adds nothing. */
  lemma {:induction false} VoicesSnoc(rows: seq<Row>, row: Row)
    ensures Voices(rows + [row]) == Voices(rows) + RowVoices(row)
    decreases |rows|
  {
    if rows == [] {
      assert [row][1..] == [];
      VoicesCons([row]);
      assert Voices([row]) == RowVoices(row) + Voices([]);
    } else {
      var all := rows + [row];
      assert all[0] == rows[0] && all[1..] == rows[1..] + [row];
      VoicesCons(all);
      VoicesSnoc(rows[1..], row);
      VoicesCons(rows);
      ConcatAssoc(RowVoices(rows[0]), Voices(rows[1..]), RowVoices(row));
    }
  }

  /** One unfolding of `Voices`. */
  lemma VoicesCons(rows: seq<Row>)
    requires rows != []
    ensures Voices(rows) == RowVoices(rows[0]) + Voices(rows[1..])
  {
  }

  lemma ConcatAssoc(a: seq<VoiceInfo>, b: seq<VoiceInfo>, c: seq<VoiceInfo>)
    ensures a + (b + c) == (a + b) + c
  {
  }

  /** Every voice comes from a row of the table. */
  lemma {:induction false} VoicesFromRows(rows: seq<Row>, v: VoiceInfo)
    requires v in Voices(rows)
    ensures exists row :: row in rows && IsVoiceRow(row) && v == RowToVoice(row)
    decreases |rows|
  {
    if !IsVoiceRow(rows[0]) || v != RowToVoice(rows[0]) {
      VoicesFromRows(rows[1..], v);
      var row :| row in rows[1..] && IsVoiceRow(row) && v == RowToVoice(row);
      assert row in rows;
    }
  }

  /** What `load_voice_types` leaves behind. `allTypes` is `None` when the
      file could not be read, since the source sets `all_types` only after
      a successful read. */
  datatype Catalogue = Catalogue(
    voices: seq<VoiceInfo>,
    byScene: map<string, seq<VoiceInfo>>,
    allScenes: seq<string>,
    allTypes: Option<seq<string>>)

  /** The voice type of a voice. */
  function TypeKey(): VoiceInfo -> string
  {
    (v: VoiceInfo) => v.voiceType
  }

  /** `load_voice_types` over the rows of the file, the header included;
      `None` stands for a file that could not be opened or read. An empty
      file fails on reading the header. */
  function LoadVoiceTypes(file: Option<seq<Row>>): (c: Catalogue)
    ensures file.None? || file.value == [] ==> c == Catalogue([], map[], [], None)
    ensures file.Some? && file.value != [] ==> c.voices == Voices(file.value[1..]) && c.allTypes.Some?
    ensures StrictlySorted(c.allScenes)
    ensures forall s :: s in c.allScenes <==> exists v :: v in c.voices && SceneKey()(v) == s
    ensures c.allTypes.Some? ==> StrictlySorted(c.allTypes.value)
    ensures c.allTypes.Some? ==> forall t :: t in c.allTypes.value <==> exists v :: v in c.voices && v.voiceType == t
  {
    if file.None? || file.value == [] then Catalogue([], map[], [], None)
    else
      var vs := Voices(file.value[1..]);
      var scenes := KeysOf(vs, SceneKey());
      var types := KeysOf(vs, TypeKey());
      KeysOfMembers(vs, SceneKey());
      KeysOfMembers(vs, TypeKey());
      Catalogue(vs, GroupMap(vs, SceneKey()), SortedUnique(scenes), Some(SortedUnique(types)))
  }

  /** `voice_by_scene` files every loaded voice under its cleaned scene: a
      scene is a key exactly when some voice has it, and its list holds those
      voices in load order. */
  lemma ByScenePartitions(file: Option<seq<Row>>, s: string)
    ensures var c := LoadVoiceTypes(file);
      && (s in c.byScene <==> Filter(c.voices, KeyIs(SceneKey(), s)) != [])
      && (s in c.byScene ==> c.byScene[s] == Filter(c.voices, KeyIs(SceneKey(), s)))
  {
    var c := LoadVoiceTypes(file);
    GroupMapIsFilter(c.voices, SceneKey());
  }
}
