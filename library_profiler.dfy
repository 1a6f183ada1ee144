/**
 * The decisions of `LibraryProfiler` around a fingerprint: the name of the
 * profile file, the logging identifier that shares its stem, and whether
 * `extractFingerPrints` writes a profile at all.
 *
 * The package tree and the hash trees are not modelled; only what the
 * profiler observes of them enters: whether the package tree has a root
 * package, and the class count of each generated hash tree.
 */
module LibraryProfiler {

  /** `FILE_EXT_LIB_PROFILE`. */
  const FileExtLibProfile: string := "lib"

  /** The library description read from the library's XML file. */
  datatype LibraryDescription = LibraryDescription(name: string, version: string, category: string)

  /** `s.replaceAll(" ", "-")`: the pattern is a single space, matched literally. */
  function ReplaceSpaces(s: string): string
  {
    if s == [] then []
    else [if s[0] == ' ' then '-' else s[0]] + ReplaceSpaces(s[1..])
  }

  /** Position by position, a space becomes `-` and every other character stays. */
  lemma {:induction false} ReplaceSpacesAt(s: string)
    ensures |ReplaceSpaces(s)| == |s|
    ensures forall i :: 0 <= i < |s| ==> ReplaceSpaces(s)[i] == if s[i] == ' ' then '-' else s[i]
  {
    if s != [] {
      ReplaceSpacesAt(s[1..]);
      var r := ReplaceSpaces(s);
      forall i | 0 < i < |s|
        ensures r[i] == if s[i] == ' ' then '-' else s[i]
      {
        assert r[i] == ReplaceSpaces(s[1..])[i - 1];
        assert s[i] == s[1..][i - 1];
      }
    }
  }

  lemma ReplaceSpacesNoSpace(s: string)
    ensures ' ' !in ReplaceSpaces(s)
  {
    ReplaceSpacesAt(s);
    var r := ReplaceSpaces(s);
    assert forall i :: 0 <= i < |r| ==> r[i] != ' ';
  }

  /** The stem of the logging identifier (the part after the log directory). */
  function LogIdentifierStem(desc: LibraryDescription): string
  {
    ReplaceSpaces(desc.name) + "_" + desc.version
  }

  /** The logging identifier set at construction: log directory, separator, stem. */
  function LogIdentifier(logDir: string, separator: string, desc: LibraryDescription): string
  {
    logDir + separator + LogIdentifierStem(desc)
  }

  /**
   * The logging identifier and the profile file name share their stem: the
   * identifier with the extension appended is the log directory, the
   * separator and the file name.
   */
  lemma LogIdentifierSharesStem(logDir: string, separator: string, desc: LibraryDescription)
    ensures LogIdentifier(logDir, separator, desc) + "." + FileExtLibProfile
         == logDir + separator + ProfileFileName(desc)
  {
  }

  /** The profile file name: `<name with spaces as hyphens>_<version>.lib`. */
  function ProfileFileName(desc: LibraryDescription): string
  {
    ReplaceSpaces(desc.name) + "_" + desc.version + "." + FileExtLibProfile
  }

  /** Where the profile is written: `<profilesDir>/<category>/<file name>`. */
  function ProfilePath(profilesDir: string, separator: string, desc: LibraryDescription): string
  {
    profilesDir + separator + desc.category + separator + ProfileFileName(desc)
  }

  /**
   * The file name reads back into its parts: the name with its spaces
   * replaced, `_`, the version, and the extension `.lib`; it starts with the
   * stem of the logging identifier; no character coming from the name is a
   * space.
   */
  lemma ProfileFileNameParts(desc: LibraryDescription)
    ensures var f, n := ProfileFileName(desc), |desc.name|;
      && |f| == n + |desc.version| + 5
      && f[..n] == ReplaceSpaces(desc.name)
      && f[n] == '_'
      && f[n + 1..|f| - 4] == desc.version
      && f[|f| - 4..] == ".lib"
      && f == LogIdentifierStem(desc) + ".lib"
      && (forall i :: 0 <= i < n ==> f[i] != ' ')
  {
    var f, n := ProfileFileName(desc), |desc.name|;
    var r := ReplaceSpaces(desc.name);
    ReplaceSpacesAt(desc.name);
    ReplaceSpacesNoSpace(desc.name);
    assert f == r + "_" + desc.version + ".lib";
    assert f[..n] == r;
    forall i | 0 <= i < n ensures f[i] != ' ' {
      assert f[i] == r[i] && r[i] in r;
    }
  }

  /** A version without spaces gives a file name without spaces. */
  lemma ProfileFileNameHasNoSpace(desc: LibraryDescription)
    requires ' ' !in desc.version
    ensures ' ' !in ProfileFileName(desc)
  {
    var r, v := ReplaceSpaces(desc.name), desc.version;
    var f := ProfileFileName(desc);
    ReplaceSpacesNoSpace(desc.name);
    assert f == r + "_" + v + ".lib";
    forall i | 0 <= i < |f| ensures f[i] != ' ' {
      if i < |r| {
        assert f[i] == r[i] && r[i] in r;
      } else if |r| < i < |r| + 1 + |v| {
        assert f[i] == v[i - |r| - 1] && v[i - |r| - 1] in v;
      }
    }
  }

  /**
   * Equal versions and equal names after replacement give one file: a space
   * and a hyphen in the same place of two library names are not told apart.
   */
  lemma SpaceAndHyphenCollide(version: string, category: string)
    ensures ProfileFileName(LibraryDescription("a b", version, category))
         == ProfileFileName(LibraryDescription("a-b", version, category))
  {
    assert ReplaceSpaces("a b") == "a-b" by {
      assert "a b"[1..] == " b" && " b"[1..] == "b" && "b"[1..] == [];
    }
    assert ReplaceSpaces("a-b") == "a-b" by {
      assert "a-b"[1..] == "-b" && "-b"[1..] == "b" && "b"[1..] == [];
    }
  }

  // ---------------------------------------------------------------------
  // extractFingerPrints: warn, skip or write.
  // ---------------------------------------------------------------------

  datatype Action = SkipEmptyHashTree | WriteProfile(path: string)

  datatype Report = Report(warnedMultipleRoots: bool, action: Action)

  /**
   * What `extractFingerPrints` does once the package tree and the hash trees
   * are built: a package tree without a root package is only reported; no
   * hash tree, or a first hash tree without classes, means no profile.
   */
  function ExtractFingerPrints(profilesDir: string, separator: string, desc: LibraryDescription,
                               rootIsNull: bool, hashTreeClassCounts: seq<nat>): (r: Report)
    ensures r.warnedMultipleRoots == rootIsNull
    ensures r.action.SkipEmptyHashTree? <==> hashTreeClassCounts == [] || hashTreeClassCounts[0] == 0
    ensures r.action.WriteProfile? ==> r.action.path == ProfilePath(profilesDir, separator, desc)
  {
    var warned := rootIsNull;
    if hashTreeClassCounts == [] || hashTreeClassCounts[0] == 0 then Report(warned, SkipEmptyHashTree)
    else Report(warned, WriteProfile(ProfilePath(profilesDir, separator, desc)))
  }

  /** A missing root package does not stop the profile from being written. */
  lemma MultipleRootsOnlyWarn(profilesDir: string, separator: string, desc: LibraryDescription,
                              hashTreeClassCounts: seq<nat>)
    ensures ExtractFingerPrints(profilesDir, separator, desc, true, hashTreeClassCounts).action
         == ExtractFingerPrints(profilesDir, separator, desc, false, hashTreeClassCounts).action
  {
  }

  /** Only the first hash tree is checked: the class counts of the others never matter. */
  lemma OnlyFirstHashTreeDecides(profilesDir: string, separator: string, desc: LibraryDescription,
                                 rootIsNull: bool, first: nat, rest1: seq<nat>, rest2: seq<nat>)
    ensures ExtractFingerPrints(profilesDir, separator, desc, rootIsNull, [first] + rest1)
         == ExtractFingerPrints(profilesDir, separator, desc, rootIsNull, [first] + rest2)
  {
  }

  /** A written profile lies in the category's directory under the profile file name. */
  lemma WrittenProfileLocation(profilesDir: string, separator: string, desc: LibraryDescription,
                               rootIsNull: bool, hashTreeClassCounts: seq<nat>)
    requires ExtractFingerPrints(profilesDir, separator, desc, rootIsNull, hashTreeClassCounts).action.WriteProfile?
    ensures var p := ExtractFingerPrints(profilesDir, separator, desc, rootIsNull, hashTreeClassCounts).action.path;
      && p[..|profilesDir + separator + desc.category + separator|] == profilesDir + separator + desc.category + separator
      && p[|p| - |ProfileFileName(desc)|..] == ProfileFileName(desc)
  {
    var prefix := profilesDir + separator + desc.category + separator;
    var p := ProfilePath(profilesDir, separator, desc);
    assert p == prefix + ProfileFileName(desc);
  }
}
