/** The file-type guard used before a configuration file is read, and the
    suffix fix-up applied to the path chosen for an export. Paths are Windows
    paths: both `\` and `/` separate path elements. Case folding is ASCII only. */
module PathGuard {
  import opened EnvConfig

  predicate IsPathSeparator(c: char) {
    c == '\\' || c == '/'
  }

  predicate HasSuffix(s: string, suffix: string) {
    |suffix| <= |s| && s[|s| - |suffix|..] == suffix
  }

  /** No `.` occurs in the final path element of `path`: every dot is
      followed, somewhere later, by a separator. */
  ghost predicate NoDotInLastElement(path: string) {
    forall i :: 0 <= i < |path| && path[i] == '.' ==>
      exists j :: i < j < |path| && IsPathSeparator(path[j])
  }

  /** The extension of `path`: the suffix that starts at the last `.` of the
      final path element, or empty when that element has no dot. */
  function Ext(path: string): (e: string)
    ensures |e| <= |path| && e == path[|path| - |e|..]
    ensures e != [] ==> e[0] == '.'
    ensures forall i :: |path| - |e| < i < |path| ==> path[i] != '.' && !IsPathSeparator(path[i])
    ensures e == [] ==> NoDotInLastElement(path)
    decreases |path|
  {
    if |path| == 0 then ""
    else
      var n := |path| - 1;
      var c := path[n];
      if IsPathSeparator(c) then ""
      else if c == '.' then "."
      else
        var e := Ext(path[..n]);
        assert forall i :: 0 <= i < n ==> path[..n][i] == path[i];
        if e == "" then "" else e + [c]
  }

  /** Whether `filePath` names a YAML configuration by its extension. */
  predicate IsValidYAMLFile(filePath: string) {
    var ext := ToLower(Ext(filePath));
    ext == ".yaml" || ext == ".yml"
  }

  /** The path an export is written to: `.yaml` is appended unless the chosen
      path already ends, ignoring case, in `.yaml` or `.yml`. */
  function FixSavePath(savePath: string): (r: string)
    ensures r == savePath || r == savePath + ".yaml"
    ensures HasSuffix(ToLower(r), ".yaml") || HasSuffix(ToLower(r), ".yml")
  {
    if !HasSuffix(ToLower(savePath), ".yaml") && !HasSuffix(ToLower(savePath), ".yml") then
      var r := savePath + ".yaml";
      assert ToLower(r)[|r| - 5..] == ".yaml";
      r
    else savePath
  }

  /** A dot at `k` with neither a dot nor a separator after it starts the extension. */
  lemma ExtOfDottedSuffix(path: string, k: nat)
    requires k < |path| && path[k] == '.'
    requires forall i :: k < i < |path| ==> path[i] != '.' && !IsPathSeparator(path[i])
    ensures Ext(path) == path[k..]
  {
    var e := Ext(path);
    var start := |path| - |e|;
    assert e != [];
    assert path[start] == '.';
    assert start == k;
  }

  lemma ToLowerSuffix(s: string, i: nat)
    requires i <= |s|
    ensures ToLower(s)[i..] == ToLower(s[i..])
  {
  }

  lemma ValidHasYamlSuffix(path: string)
    requires IsValidYAMLFile(path)
    ensures HasSuffix(ToLower(path), ToLower(Ext(path)))
  {
    ToLowerSuffix(path, |path| - |Ext(path)|);
  }

  lemma YamlSuffixIsValid(path: string, ext: string)
    requires ext == ".yaml" || ext == ".yml"
    requires HasSuffix(ToLower(path), ext)
    ensures IsValidYAMLFile(path)
  {
    var k := |path| - |ext|;
    ToLowerSuffix(path, k);
    YamlExtensionAccepted(path[..k], path[k..]);
    assert path[..k] + path[k..] == path;
  }

  /** The guard accepts exactly the paths that end, ignoring case, in `.yaml`
      or `.yml`; an extension followed by another one (`a.yaml.txt`) or by a
      further path element (`d.yaml\cfg`) is rejected. */
  lemma ValidIffYamlSuffix(path: string)
    ensures IsValidYAMLFile(path) <==> HasSuffix(ToLower(path), ".yaml") || HasSuffix(ToLower(path), ".yml")
  {
    if IsValidYAMLFile(path) {
      ValidHasYamlSuffix(path);
    }
    if HasSuffix(ToLower(path), ".yaml") {
      YamlSuffixIsValid(path, ".yaml");
    }
    if HasSuffix(ToLower(path), ".yml") {
      YamlSuffixIsValid(path, ".yml");
    }
  }

  /** The extension of `stem + ext`, when `ext` is a dot followed by
      characters that are neither dots nor separators, is `ext`. */
  lemma ExtOfAppended(stem: string, ext: string)
    requires |ext| > 0 && ext[0] == '.'
    requires forall i :: 0 < i < |ext| ==> ext[i] != '.' && !IsPathSeparator(ext[i])
    ensures Ext(stem + ext) == ext
  {
    var path := stem + ext;
    forall i | |stem| < i < |path| ensures path[i] != '.' && !IsPathSeparator(path[i]) {
      assert path[i] == ext[i - |stem|];
    }
    ExtOfDottedSuffix(path, |stem|);
    assert path[|stem|..] == ext;
  }

  /** Any path whose last characters are `.yaml` or `.yml` in any mix of
      case (`cfg.YML`, `cfg.yaml`, `cfg.Yaml`) is accepted. */
  lemma YamlExtensionAccepted(stem: string, ext: string)
    requires ToLower(ext) == ".yaml" || ToLower(ext) == ".yml"
    ensures IsValidYAMLFile(stem + ext)
  {
    assert ToLower(ext)[0] == '.';
    forall i | 0 < i < |ext| ensures ext[i] != '.' && !IsPathSeparator(ext[i]) {
      assert ToLower(ext)[i] in "yamlyml";
    }
    ExtOfAppended(stem, ext);
  }

  /** `cfg.txt` and `a.yaml.txt` are rejected: only the last extension counts. */
  lemma OtherExtensionRejected(stem: string)
    ensures !IsValidYAMLFile(stem + ".txt") && !IsValidYAMLFile(stem + ".yaml.txt")
  {
    assert ToLower(".txt") == ".txt";
    assert !IsValidYAMLFile(stem + ".txt") by {
      ExtOfAppended(stem, ".txt");
    }
    assert !IsValidYAMLFile(stem + ".yaml.txt") by {
      ExtOfAppended(stem + ".yaml", ".txt");
      assert stem + ".yaml" + ".txt" == stem + ".yaml.txt";
    }
  }

  /** A final path element without a dot (`cfg`, or `conf.yaml\cfg`) has no
      extension, so the path is rejected. */
  lemma NoExtensionRejected(dir: string, name: string)
    requires forall i :: 0 <= i < |name| ==> name[i] != '.'
    requires dir == "" || IsPathSeparator(dir[|dir| - 1])
    ensures !IsValidYAMLFile(dir + name)
  {
    var path := dir + name;
    assert forall i :: |dir| <= i < |path| ==> path[i] == name[i - |dir|];
    assert dir != "" ==> IsPathSeparator(path[|dir| - 1]);
    assert Ext(path) == [];
  }

  /** The fix-up changes a path exactly when the guard would reject it. */
  lemma FixSavePathUnchangedIffValid(savePath: string)
    ensures FixSavePath(savePath) == savePath <==> IsValidYAMLFile(savePath)
  {
    ValidIffYamlSuffix(savePath);
    if FixSavePath(savePath) != savePath {
      assert |FixSavePath(savePath)| == |savePath| + 5;
    }
  }

  /** Every path the export writes to passes the guard. */
  lemma FixSavePathIsValid(savePath: string)
    ensures IsValidYAMLFile(FixSavePath(savePath))
  {
    ValidIffYamlSuffix(FixSavePath(savePath));
  }

  lemma FixSavePathIdempotent(savePath: string)
    ensures FixSavePath(FixSavePath(savePath)) == FixSavePath(savePath)
  {
    FixSavePathIsValid(savePath);
    FixSavePathUnchangedIffValid(FixSavePath(savePath));
  }
}
