/**
 * The small string helpers of src/functions.php: `strip_protocol`,
 * `explode_string_by` and `join_file_folder_and_name`.
 */
module Helpers {
  import opened Wrappers
  import opened PhpString

  /** The replacement table `strip_protocol` hands to `strtr`. */
  const ProtocolRules: Rules := [("https://", ""), ("http://", "")]

  /**
   * `strip_protocol($s)`: each `https://` or `http://` met in a left-to-right
   * scan is deleted; the text around a deletion is not scanned again.
   */
  function StripProtocol(s: string): (r: string)
    ensures |r| <= |s|
  {
    StrtrNeverGrows(s, ProtocolRules);
    Strtr(s, ProtocolRules)
  }

  /** Neither protocol prefix starts anywhere in `h`. */
  predicate ProtocolFree(h: string)
  {
    forall j :: 0 <= j < |h| ==> NoRuleAt(ProtocolRules, h, j)
  }

  /** At a marker, `strtr` picks that marker: `http://` is never a prefix of `https://...`, nor the reverse. */
  lemma MarkerChosen(scheme: string, rest: string)
    requires scheme == "http://" || scheme == "https://"
    ensures LongestRuleAt(ProtocolRules, scheme + rest) == Some((scheme, ""))
  {
    var s := scheme + rest;
    assert s[..|scheme|] == scheme;
    if scheme == "http://" {
      assert s[4] == ':';
      assert !("https://" <= s);
    }
  }

  /**
   * One step of the scan: text where no marker starts is kept, the marker
   * after it is deleted, and the scan goes on with what follows the marker.
   * Applied repeatedly, this covers any number of markers.
   */
  lemma StripProtocolStep(a: string, scheme: string, rest: string)
    requires scheme == "http://" || scheme == "https://"
    requires forall j :: 0 <= j < |a| ==> NoRuleAt(ProtocolRules, a + scheme + rest, j)
    ensures StripProtocol(a + scheme + rest) == a + StripProtocol(rest)
  {
    var v: string := "";
    MarkerChosen(scheme, rest);
    StrtrStep(a, scheme, v, rest, ProtocolRules);
    assert a + v == a;
  }

  /** Text where no marker starts comes back unchanged. */
  lemma StripProtocolFree(h: string)
    requires ProtocolFree(h)
    ensures StripProtocol(h) == h
  {
    StrtrIdentity(h, ProtocolRules);
  }

  /**
   * A URL whose only protocol marker is the leading one loses exactly that
   * prefix: `strip_protocol('http://' . $h) === $h`, and the same for `https://`.
   */
  lemma StripLeadingProtocol(scheme: string, h: string)
    requires scheme == "http://" || scheme == "https://"
    requires ProtocolFree(h)
    ensures StripProtocol(scheme + h) == h
  {
    assert [] + scheme + h == scheme + h;
    StripProtocolStep([], scheme, h);
    StripProtocolFree(h);
  }

  /** Both protocol markers start with `h`, so no marker starts where there is no `h`. */
  lemma NoProtocolBeforeH(a: string, b: string)
    requires 'h' !in a
    ensures forall j :: 0 <= j < |a| ==> NoRuleAt(ProtocolRules, a + b, j)
  {
    forall j, q | 0 <= j < |a| && q in ProtocolRules ensures !(q.0 <= (a + b)[j..]) {
      assert q.0[0] == 'h';
      assert (a + b)[j..][0] == a[j];
    }
  }

  /** `strip_protocol('http://example.com')` and `strip_protocol('https://example.com')` are `'example.com'`. */
  lemma StripProtocolExamples(scheme: string, host: string)
    requires scheme == "http://" || scheme == "https://"
    requires host == "example.com"
    ensures StripProtocol(scheme + host) == host
  {
    NoProtocolBeforeH(host, []);
    assert host + [] == host;
    StripLeadingProtocol(scheme, host);
  }

  /** No marker starts at `j` when the text there does not begin `h?t`. */
  lemma NoProtocolAt(s: string, j: nat)
    requires j + 2 < |s| && (s[j] != 'h' || s[j + 2] != 't')
    ensures NoRuleAt(ProtocolRules, s, j)
  {
    forall q | q in ProtocolRules ensures !(q.0 <= s[j..]) {
      assert q.0[0] == 'h' && q.0[2] == 't';
      assert s[j..][0] == s[j] && s[j..][2] == s[j + 2];
    }
  }

  /** A marker inside a query string is deleted as well as the leading one: `https://example.com/?u=http://x` gives `example.com/?u=x`. */
  lemma StripProtocolTwoMarkers(u: string, x: string)
    requires u == "example.com/?u=" && x == "x"
    ensures StripProtocol("https://" + u + "http://" + x) == u + x
  {
    var t := u + "http://" + x;
    NoProtocolBeforeH(u, "http://" + x);
    assert u + ("http://" + x) == t;
    StripProtocolStep(u, "http://", x);
    NoProtocolBeforeH(x, []);
    assert x + [] == x;
    StripProtocolFree(x);
    assert [] + "https://" + t == "https://" + t;
    assert "https://" + u + "http://" + x == "https://" + t;
    StripProtocolStep([], "https://", t);
  }

  /**
   * Deleted text is not rescanned: in `hthttp://tp://` deleting the inner
   * marker brings `ht` and `tp://` together into a new `http://`, which stays.
   */
  lemma StripProtocolNotRescanned(a: string, rest: string)
    requires a == "ht" && rest == "tp://"
    ensures StripProtocol(a + "http://" + rest) == a + rest
    ensures a + rest == "http://"
  {
    var s := a + "http://" + rest;
    assert s[0] == 'h' && s[1] == 't' && s[2] == 'h';
    NoProtocolAt(s, 0);
    NoProtocolAt(s, 1);
    StripProtocolStep(a, "http://", rest);
    NoProtocolBeforeH(rest, []);
    assert rest + [] == rest;
    StripProtocolFree(rest);
  }

  /**
   * `explode_string_by($delimiter)`: a closure that explodes its argument
   * by the captured delimiter.
   */
  function ExplodeStringBy(delimiter: string): (f: string -> Result<seq<string>, ExplodeError>)
    ensures forall s :: f(s).Err? <==> delimiter == []
    ensures forall s :: f(s).Ok? ==> Implode(delimiter, f(s).value) == s
  {
    var f := (s: string) => Explode(delimiter, s);
    assert forall s :: f(s).Ok? ==> Implode(delimiter, f(s).value) == s by {
      forall s | f(s).Ok? ensures Implode(delimiter, f(s).value) == s {
        ImplodeSplit(s, delimiter);
      }
    }
    f
  }

  /** `explode_string_by('/')('foo/bar')` and `explode_string_by(',')('foo,bar')` are `['foo', 'bar']`. */
  lemma ExplodeExamples(d: string, foo: string, bar: string)
    requires d == "/" || d == ","
    requires foo == "foo" && bar == "bar"
    ensures ExplodeStringBy(d)(foo + d + bar) == Ok([foo, bar])
  {
    assert Implode(d, [foo, bar]) == foo + d + bar;
    SplitImplode(d, [foo, bar]);
  }

  /**
   * `join_file_folder_and_name($folder, $filename)`: the folder without its
   * trailing slashes, one `/`, then the file name without its leading and
   * trailing slashes.
   */
  function JoinFileFolderAndName(folder: string, filename: string): (r: string)
    ensures (folder == [] || folder[|folder| - 1] != '/') &&
            (filename == [] || (filename[0] != '/' && filename[|filename| - 1] != '/'))
            ==> r == folder + "/" + filename
  {
    TrimRight(folder, '/') + "/" + Trim(filename, '/')
  }

  /**
   * The joined path is the folder stripped of its trailing slashes, exactly
   * one `/`, and the file name stripped of slashes at both ends; nothing but
   * slashes was dropped from either argument.
   */
  lemma JoinShape(folder: string, filename: string)
    ensures var f, n := TrimRight(folder, '/'), Trim(filename, '/');
            && JoinFileFolderAndName(folder, filename) == f + "/" + n
            && (f == [] || f[|f| - 1] != '/')
            && folder == f + Rep('/', |folder| - |f|)
            && (n == [] || (n[0] != '/' && n[|n| - 1] != '/'))
            && filename == Rep('/', |TrimRight(filename, '/')| - |n|) + n
                            + Rep('/', |filename| - |TrimRight(filename, '/')|)
  {
    TrimRightResult(folder, '/');
    TrimRightSplits(folder, '/');
    TrimResult(filename, '/');
  }

  /**
   * Extra slashes on either side of the joint, or after the file name, do
   * not change the joined path: `('/tmp/', '/foo.php')` and `('/tmp', 'foo.php')`
   * give the same result.
   */
  lemma JoinIgnoresExtraSlashes(folder: string, a: nat, b: nat, name: string, c: nat)
    requires folder == [] || folder[|folder| - 1] != '/'
    requires name == [] || (name[0] != '/' && name[|name| - 1] != '/')
    ensures JoinFileFolderAndName(folder + Rep('/', a), Rep('/', b) + name + Rep('/', c))
         == folder + "/" + name
  {
    TrimRightPadded('/', folder, a);
    TrimOfPadded('/', b, name, c);
  }

  lemma JoinExamples(folder: string, name: string)
    requires folder == "/tmp" && name == "foo.php"
    ensures JoinFileFolderAndName(folder + "/", "/" + name) == folder + "/" + name
    ensures JoinFileFolderAndName(folder, name) == folder + "/" + name
  {
    assert folder + "/" == folder + Rep('/', 1);
    assert "/" + name == Rep('/', 1) + name + Rep('/', 0);
    JoinIgnoresExtraSlashes(folder, 1, 1, name, 0);
  }
}
