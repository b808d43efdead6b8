/**
 * `fetch_config_files($path)`: every `*.php` file of a folder is loaded and
 * stored under its basename with `.php` removed. Listing the folder and
 * loading a file are not modelled: the loop runs over the (path, value) pairs
 * they would produce, in listing order.
 */
module ConfigAggregator {
  import opened Wrappers
  import opened PhpString

  /** The table `fetch_config_files` hands to `strtr`. */
  const PhpSuffixRules: Rules := [(".php", "")]

  /**
   * `strtr(basename($config_file), ['.php' => ''])`: the key a file is
   * stored under. It never contains a slash and is no longer than the
   * file's base name.
   */
  function ConfigKey(path: string): (key: string)
    ensures '/' !in key
    ensures |key| <= |Basename(path)|
  {
    BasenameHasNoSlash(path);
    StrtrKeepsSlashFree(Basename(path));
    StrtrNeverGrows(Basename(path), PhpSuffixRules);
    Strtr(Basename(path), PhpSuffixRules)
  }

  lemma {:induction false} StrtrKeepsSlashFree(s: string)
    requires '/' !in s
    ensures '/' !in Strtr(s, PhpSuffixRules)
    decreases |s|
  {
    if s != [] {
      match LongestRuleAt(PhpSuffixRules, s)
      case Some(rule) =>
        assert rule == (".php", "");
        StrtrKeepsSlashFree(s[|rule.0|..]);
      case None =>
        StrtrKeepsSlashFree(s[1..]);
    }
  }

  /** The file `dir/name.php` is stored under `name`, for a name without dots or slashes. */
  lemma ConfigKeyOfPhpFile(dir: string, name: string, ext: string)
    requires ext == ".php"
    requires name != [] && '/' !in name && '.' !in name
    ensures ConfigKey(dir + "/" + name + ext) == name
  {
    var file := name + ext;
    assert '/' !in file by {
      assert forall i :: 0 <= i < |file| ==> file[i] == if i < |name| then name[i] else ext[i - |name|];
    }
    assert dir + "/" + name + ext == dir + "/" + file;
    BasenameOf(dir, file);
    forall j | 0 <= j < |name| ensures NoRuleAt(PhpSuffixRules, file, j) {
      assert file[j..][0] == name[j];
    }
    StrtrCopies(name, ext, PhpSuffixRules);
    assert ext + [] == ext;
    assert ext[..|ext|] == ext;
    assert LongestRuleAt(PhpSuffixRules, ext) == Some((ext, ""));
    StrtrReplaces(ext, "", [], PhpSuffixRules);
  }

  /** The configuration after storing `files` in order: a later file overwrites an earlier one with the same key. */
  function ConfigOf<V>(files: seq<(string, V)>): map<string, V>
    decreases |files|
  {
    if files == [] then map[]
    else ConfigOf(files[..|files| - 1])[ConfigKey(files[|files| - 1].0) := files[|files| - 1].1]
  }

  /** Every file leaves exactly its key, and nothing else is stored. */
  lemma {:induction false} ConfigOfKeys<V>(files: seq<(string, V)>)
    ensures ConfigOf(files).Keys == set i | 0 <= i < |files| :: ConfigKey(files[i].0)
    decreases |files|
  {
    if files != [] {
      var init := files[..|files| - 1];
      ConfigOfKeys(init);
      assert forall i :: 0 <= i < |init| ==> init[i] == files[i];
    }
  }

  /** A key holds the value of the last file stored under it. */
  lemma {:induction false} ConfigOfLastWins<V>(files: seq<(string, V)>, i: nat)
    requires i < |files|
    requires forall j :: i < j < |files| ==> ConfigKey(files[j].0) != ConfigKey(files[i].0)
    ensures ConfigKey(files[i].0) in ConfigOf(files)
    ensures ConfigOf(files)[ConfigKey(files[i].0)] == files[i].1
    decreases |files|
  {
    if i < |files| - 1 {
      var init := files[..|files| - 1];
      assert init[i] == files[i];
      ConfigOfLastWins(init, i);
    }
  }

  /** `fetch_config_files`: the loop filling `$return`, one file at a time. */
  method FetchConfigFiles<V>(files: seq<(string, V)>) returns (config: map<string, V>)
    ensures config == ConfigOf(files)
  {
    config := map[];
    var n := 0;
    while n < |files|
      invariant 0 <= n <= |files|
      invariant config == ConfigOf(files[..n])
    {
      var key := ConfigKey(files[n].0);
      config := config[key := files[n].1];
      assert files[..n + 1][..n] == files[..n];
      n := n + 1;
    }
    assert files[..n] == files;
  }

  /** Two configuration files, `database.php` and `sqlite.php`, give the keys `database` and `sqlite`. */
  method FetchConfigExample(dir: string, database: string, sqlite: string, ext: string, a: int, b: int)
    returns (config: map<string, int>)
    requires database == "database" && sqlite == "sqlite" && ext == ".php"
    ensures config == map[database := a, sqlite := b]
    ensures config[database] == a && config[sqlite] == b
  {
    var files := [(dir + "/" + database + ext, a), (dir + "/" + sqlite + ext, b)];
    ConfigKeyOfPhpFile(dir, database, ext);
    ConfigKeyOfPhpFile(dir, sqlite, ext);
    config := FetchConfigFiles(files);
    assert files[..1][..0] == [] && files[..2][..1] == files[..1] && files[..2] == files;
    assert ConfigOf(files[..1]) == map[database := a];
    assert database != sqlite by { assert database[0] != sqlite[0]; }
  }
}
