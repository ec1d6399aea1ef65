/** The `mavenSettings { }` extension: the settings file name, the profile
    ids to force active and the property-export flag, each initialised from
    the Gradle project properties. */
module PluginExtension {
  import opened Strings
  import opened Sequences

  /** Project-property keys are the extension name `mavenSettings`
      followed by a dot and the property name. */
  const UserSettingsFileNameKey: string := "mavenSettings.userSettingsFileName"
  /** The key the active-profile list was evidently meant to read. */
  const ActiveProfilesKey: string := "mavenSettings.activeProfiles"

  /** The extension's state. `projectProperties` holds the project
      properties with their values already turned into text. */
  datatype Extension = Extension(
    projectProperties: map<string, string>,
    userSettingsFileName: string,
    activeProfiles: seq<string>,
    exportGradleProps: bool)

  /** `<user.home>/.m2/settings.xml`. */
  function DefaultSettingsFile(userHome: string): string
  {
    userHome + "/.m2/settings.xml"
  }

  /** `map.getOrDefault(key, default)`. */
  function GetOrDefault(m: map<string, string>, key: string, default: string): string
  {
    if key in m then m[key] else default
  }

  /** The pieces of `parts`, trimmed, with the empty ones dropped:
      `map { it.trim() }` followed by `filter { it.isNotEmpty() }`. */
  function TrimmedNonEmpty(parts: seq<string>): (ids: seq<string>)
    ensures |ids| <= |parts|
    ensures forall i :: 0 <= i < |ids| ==> ids[i] != [] && IsTrimmed(ids[i])
  {
    var trimmed := Map(Trim, parts);
    var ids := Filter(IsNotEmpty, trimmed);
    assert forall i :: 0 <= i < |ids| ==> ids[i] != [] && IsTrimmed(ids[i]) by {
      forall i | 0 <= i < |ids| ensures ids[i] != [] && IsTrimmed(ids[i]) {
        assert ids[i] in trimmed;
      }
    }
    ids
  }

  /** Some piece of `parts` trims to `x`. */
  predicate TrimsTo(parts: seq<string>, x: string)
  {
    exists i :: 0 <= i < |parts| && Trim(parts[i]) == x
  }

  /** The pieces are handled one at a time and in order: the result for a
      concatenation is the concatenation of the results. */
  lemma TrimmedNonEmptyAppend(a: seq<string>, b: seq<string>)
    ensures TrimmedNonEmpty(a + b) == TrimmedNonEmpty(a) + TrimmedNonEmpty(b)
  {
    MapAppend(Trim, a, b);
    FilterAppend(IsNotEmpty, Map(Trim, a), Map(Trim, b));
  }

  /** A single piece yields its trim, or nothing when that trim is empty. */
  lemma TrimmedNonEmptySingle(piece: string)
    ensures TrimmedNonEmpty([piece]) == if Trim(piece) == [] then [] else [Trim(piece)]
  {
    assert Map(Trim, [piece]) == [Trim(piece)];
    assert [Trim(piece)][1..] == [];
  }

  /** The ids kept are exactly the non-empty trims of the pieces. */
  lemma TrimmedNonEmptyMembers(parts: seq<string>)
    ensures forall x :: x in TrimmedNonEmpty(parts) <==> x != [] && TrimsTo(parts, x)
  {
    var trimmed := Map(Trim, parts);
    var ids := Filter(IsNotEmpty, trimmed);
    assert TrimmedNonEmpty(parts) == ids;
    forall x ensures x in ids <==> x != [] && TrimsTo(parts, x) {
      assert x in ids <==> x in trimmed && IsNotEmpty(x);
      if x in trimmed {
        var i :| 0 <= i < |trimmed| && trimmed[i] == x;
        assert Trim(parts[i]) == x;
      }
      if TrimsTo(parts, x) {
        var i :| 0 <= i < |parts| && Trim(parts[i]) == x;
        assert trimmed[i] == x;
      }
    }
  }

  /** `value.split(',').map { it.trim() }.filter { it.isNotEmpty() }`: the
      ids are the non-empty trims of the comma-separated pieces, and none
      is empty, carries whitespace at either end or holds a comma. */
  function ParseProfileList(value: string): (ids: seq<string>)
    ensures forall x :: x in ids <==> x != [] && TrimsTo(Split(value, ','), x)
    ensures forall i :: 0 <= i < |ids| ==> ids[i] != [] && IsTrimmed(ids[i]) && ',' !in ids[i]
  {
    var parts := Split(value, ',');
    TrimmedNonEmptyMembers(parts);
    var ids := TrimmedNonEmpty(parts);
    assert forall i :: 0 <= i < |ids| ==> ',' !in ids[i] by {
      forall i | 0 <= i < |ids| ensures ',' !in ids[i] {
        assert ids[i] in ids;
        var k :| 0 <= k < |parts| && Trim(parts[k]) == ids[i];
        TrimKeepsOut(parts[k], ',');
      }
    }
    ids
  }

  /** Parsing is idempotent on each id: trimming a parsed id again leaves
      it unchanged. */
  lemma ParsedIdsAreTrimmed(value: string)
    ensures forall i :: 0 <= i < |ParseProfileList(value)| ==>
              var id := ParseProfileList(value)[i];
              Trim(id) == id
  {
    var ids := ParseProfileList(value);
    forall i | 0 <= i < |ids| ensures Trim(ids[i]) == ids[i] {
      TrimTrimmed(ids[i]);
    }
  }

  /** Round trip: a list of trimmed, non-empty ids without commas, joined
      with commas (and so with any order and duplicates), parses back to
      itself. */
  lemma {:induction false} ParseJoinedIds(ids: seq<string>)
    requires forall i :: 0 <= i < |ids| ==> ids[i] != [] && ',' !in ids[i] && IsTrimmed(ids[i])
    ensures ParseProfileList(Join(ids, ',')) == ids
  {
    if ids == [] {
      EmptyParsesToNothing();
    } else {
      SplitJoin(ids, ',');
      TrimmedOfTrimmed(ids);
    }
  }

  lemma TrimmedOfTrimmed(ids: seq<string>)
    requires forall i :: 0 <= i < |ids| ==> ids[i] != [] && IsTrimmed(ids[i])
    ensures TrimmedNonEmpty(ids) == ids
  {
    var trimmed := Map(Trim, ids);
    forall i | 0 <= i < |ids| ensures trimmed[i] == ids[i] {
      TrimTrimmed(ids[i]);
    }
    assert trimmed == ids;
    FilterKeepsAll(IsNotEmpty, ids);
  }

  /** Empty text, the default when the key is absent, parses to no ids. */
  lemma EmptyParsesToNothing()
    ensures ParseProfileList("") == []
  {
    assert Split("", ',') == [""];
    assert Trim("") == [];
  }

  /** The extension as its property initialisers build it. */
  function NewExtension(projectProperties: map<string, string>, userHome: string): (e: Extension)
    ensures e.projectProperties == projectProperties && e.exportGradleProps
  {
    Extension(
      projectProperties,
      GetOrDefault(projectProperties, UserSettingsFileNameKey, DefaultSettingsFile(userHome)),
      ParseProfileList(GetOrDefault(projectProperties, UserSettingsFileNameKey, "")),
      true)
  }

  /** Without the settings-file-name property the settings file is
      `<user.home>/.m2/settings.xml` and no profile is forced active. */
  lemma NewExtensionDefaults(projectProperties: map<string, string>, userHome: string)
    requires UserSettingsFileNameKey !in projectProperties
    ensures NewExtension(projectProperties, userHome).userSettingsFileName == DefaultSettingsFile(userHome)
    ensures NewExtension(projectProperties, userHome).activeProfiles == []
  {
    EmptyParsesToNothing();
  }

  /** With the property present, its value is both the settings file name
      and, split on commas, the list of forced-active profile ids. */
  lemma NewExtensionReadsFileNameKey(projectProperties: map<string, string>, userHome: string)
    requires UserSettingsFileNameKey in projectProperties
    ensures NewExtension(projectProperties, userHome).userSettingsFileName
            == projectProperties[UserSettingsFileNameKey]
    ensures NewExtension(projectProperties, userHome).activeProfiles
            == ParseProfileList(projectProperties[UserSettingsFileNameKey])
  {
  }

  /** As written, a settings file name such as `custom.xml` (no comma, no
      surrounding whitespace) becomes the one forced-active profile id,
      while `mavenSettings.activeProfiles` is never read (see
      `NewExtensionDefaults`, which holds whatever that key holds). */
  lemma ActiveProfilesReadFileNameKey(projectProperties: map<string, string>, userHome: string, fileName: string)
    requires UserSettingsFileNameKey in projectProperties
    requires projectProperties[UserSettingsFileNameKey] == fileName
    requires fileName != [] && ',' !in fileName && IsTrimmed(fileName)
    ensures NewExtension(projectProperties, userHome).activeProfiles == [fileName]
  {
    ParseJoinedIds([fileName]);
  }

  /** The extension with the active-profile list read from its own key. */
  function IntendedExtension(projectProperties: map<string, string>, userHome: string): (e: Extension)
    ensures e.projectProperties == projectProperties && e.exportGradleProps
    ensures e.userSettingsFileName == NewExtension(projectProperties, userHome).userSettingsFileName
  {
    Extension(
      projectProperties,
      GetOrDefault(projectProperties, UserSettingsFileNameKey, DefaultSettingsFile(userHome)),
      ParseProfileList(GetOrDefault(projectProperties, ActiveProfilesKey, "")),
      true)
  }

  /** With the intended key, a comma-joined list of profile ids comes back
      as exactly that list, whatever the settings file name is. */
  lemma IntendedActiveProfiles(projectProperties: map<string, string>, userHome: string, ids: seq<string>)
    requires forall i :: 0 <= i < |ids| ==> ids[i] != [] && ',' !in ids[i] && IsTrimmed(ids[i])
    requires ActiveProfilesKey in projectProperties && projectProperties[ActiveProfilesKey] == Join(ids, ',')
    ensures IntendedExtension(projectProperties, userHome).activeProfiles == ids
  {
    ParseJoinedIds(ids);
  }

  /** With the intended key absent, no profile is forced active. */
  lemma IntendedDefaults(projectProperties: map<string, string>, userHome: string)
    requires ActiveProfilesKey !in projectProperties
    ensures IntendedExtension(projectProperties, userHome).activeProfiles == []
  {
    EmptyParsesToNothing();
  }
}
