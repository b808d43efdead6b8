/**
 * The PHP string builtins that src/functions.php leans on: `ltrim`/`rtrim`/
 * `trim` with a one-character mask, `explode` and `implode`, `strtr` with an
 * array of replacement pairs, and `basename`. PHP works on bytes; these are
 * stated on Dafny strings, one character per byte. Every mask, delimiter and
 * `strtr` key the code passes is ASCII, so a multi-byte character in the
 * input only ever takes part in a comparison as unequal, just as its bytes do.
 *
 * The functions are plain definitions; what they guarantee is stated in the
 * lemmas next to them, so that callers pull in only the facts they use.
 */
module PhpString {
  import opened Wrappers

  /** `n` copies of `c`. */
  function Rep(c: char, n: nat): string
  {
    seq(n, _ => c)
  }

  /** A string made of `c` only is `Rep(c, |s|)`. */
  lemma AllRep(s: string, c: char)
    requires forall i :: 0 <= i < |s| ==> s[i] == c
    ensures s == Rep(c, |s|)
  {
  }

  // ---------------------------------------------------------------- trimming

  /** `ltrim($s, $c)`. */
  function TrimLeft(s: string, c: char): (r: string)
    ensures |r| <= |s|
    decreases |s|
  {
    if |s| > 0 && s[0] == c then TrimLeft(s[1..], c) else s
  }

  /** `rtrim($s, $c)`. */
  function TrimRight(s: string, c: char): (r: string)
    ensures |r| <= |s|
    decreases |s|
  {
    if |s| > 0 && s[|s| - 1] == c then TrimRight(s[..|s| - 1], c) else s
  }

  /** `trim($s, $c)`. */
  function Trim(s: string, c: char): string
  {
    TrimLeft(TrimRight(s, c), c)
  }

  /** `ltrim` keeps a suffix that does not start with `c`, and drops only `c`s. */
  lemma {:induction false} TrimLeftResult(s: string, c: char)
    ensures var r := TrimLeft(s, c);
            && |r| <= |s| && r == s[|s| - |r|..]
            && (r == [] || r[0] != c)
            && forall i :: 0 <= i < |s| - |r| ==> s[i] == c
    decreases |s|
  {
    if |s| > 0 && s[0] == c {
      TrimLeftResult(s[1..], c);
    }
  }

  /** `rtrim` keeps a prefix that does not end with `c`, and drops only `c`s. */
  lemma {:induction false} TrimRightResult(s: string, c: char)
    ensures var r := TrimRight(s, c);
            && |r| <= |s| && r == s[..|r|]
            && (r == [] || r[|r| - 1] != c)
            && forall i :: |r| <= i < |s| ==> s[i] == c
    decreases |s|
  {
    if |s| > 0 && s[|s| - 1] == c {
      TrimRightResult(s[..|s| - 1], c);
    }
  }

  /** What `ltrim` removed is a run of `c`. */
  lemma TrimLeftSplits(s: string, c: char)
    ensures s == Rep(c, |s| - |TrimLeft(s, c)|) + TrimLeft(s, c)
  {
    TrimLeftResult(s, c);
    var n := |s| - |TrimLeft(s, c)|;
    AllRep(s[..n], c);
    assert s == s[..n] + s[n..];
  }

  /** What `rtrim` removed is a run of `c`. */
  lemma TrimRightSplits(s: string, c: char)
    ensures s == TrimRight(s, c) + Rep(c, |s| - |TrimRight(s, c)|)
  {
    TrimRightResult(s, c);
    var r := TrimRight(s, c);
    AllRep(s[|r|..], c);
    assert s == s[..|r|] + s[|r|..];
  }

  /**
   * `trim` leaves a string that neither starts nor ends with `c`, and what
   * it removed was made of `c` only: `s` is the result padded on both sides.
   */
  lemma TrimResult(s: string, c: char)
    ensures var r := Trim(s, c);
            && (r == [] || (r[0] != c && r[|r| - 1] != c))
            && s == Rep(c, |TrimRight(s, c)| - |r|) + r + Rep(c, |s| - |TrimRight(s, c)|)
  {
    var t := TrimRight(s, c);
    var r := TrimLeft(t, c);
    TrimRightResult(s, c);
    TrimLeftResult(t, c);
    if r != [] {
      assert r[|r| - 1] == t[|t| - 1];
    }
    TrimRightSplits(s, c);
    TrimLeftSplits(t, c);
  }

  /** Leading copies of `c` in front of a string that does not start with `c` are all that `ltrim` drops. */
  lemma {:induction false} TrimLeftPadded(c: char, n: nat, t: string)
    requires t == [] || t[0] != c
    ensures TrimLeft(Rep(c, n) + t, c) == t
  {
    if n > 0 {
      var s := Rep(c, n) + t;
      assert s[0] == c;
      assert s[1..] == Rep(c, n - 1) + t;
      TrimLeftPadded(c, n - 1, t);
    } else {
      assert Rep(c, 0) + t == t;
    }
  }

  /** Trailing copies of `c` after a string that does not end with `c` are all that `rtrim` drops. */
  lemma {:induction false} TrimRightPadded(c: char, t: string, n: nat)
    requires t == [] || t[|t| - 1] != c
    ensures TrimRight(t + Rep(c, n), c) == t
  {
    if n > 0 {
      var s := t + Rep(c, n);
      assert s[|s| - 1] == c;
      assert s[..|s| - 1] == t + Rep(c, n - 1);
      TrimRightPadded(c, t, n - 1);
    } else {
      assert t + Rep(c, 0) == t;
    }
  }

  /**
   * The converse of TrimResult: a string without a leading or trailing `c`,
   * padded with any number of `c` on either side, trims back to itself.
   */
  lemma TrimOfPadded(c: char, lead: nat, r: string, trail: nat)
    requires r == [] || (r[0] != c && r[|r| - 1] != c)
    ensures Trim(Rep(c, lead) + r + Rep(c, trail), c) == r
  {
    if r == [] {
      TrimOfAllPadding(c, lead, trail);
    } else {
      TrimOfPaddedWord(c, lead, r, trail);
    }
  }

  lemma TrimOfPaddedWord(c: char, lead: nat, r: string, trail: nat)
    requires r != [] && r[0] != c && r[|r| - 1] != c
    ensures Trim(Rep(c, lead) + r + Rep(c, trail), c) == r
  {
    var front := Rep(c, lead) + r;
    assert front[|front| - 1] == r[|r| - 1];
    TrimRightPadded(c, front, trail);
    TrimLeftPadded(c, lead, r);
  }

  lemma TrimOfAllPadding(c: char, lead: nat, trail: nat)
    ensures Trim(Rep(c, lead) + [] + Rep(c, trail), c) == []
  {
    var all := Rep(c, lead) + [] + Rep(c, trail);
    assert all == [] + Rep(c, lead + trail);
    TrimRightPadded(c, [], lead + trail);
  }

  /** Trimming twice is trimming once. */
  lemma TrimIdempotent(s: string, c: char)
    ensures Trim(Trim(s, c), c) == Trim(s, c)
  {
    var r := Trim(s, c);
    TrimResult(s, c);
    TrimOfPadded(c, 0, r, 0);
    assert Rep(c, 0) + r + Rep(c, 0) == r;
  }

  // ------------------------------------------------------- explode / implode

  /** `needle` occurs in `s` starting at index `i`. */
  predicate OccursAt(s: string, needle: string, i: int)
  {
    0 <= i && i + |needle| <= |s| && s[i..i + |needle|] == needle
  }

  /** `needle` occurs somewhere in `s` (PHP `str_contains`). */
  predicate Contains(s: string, needle: string)
  {
    exists i :: 0 <= i <= |s| && OccursAt(s, needle, i)
  }

  /** A one-character needle occurs exactly where that character stands. */
  lemma OneCharOccursAt(s: string, d: string, j: int)
    requires |d| == 1
    ensures OccursAt(s, d, j) <==> 0 <= j < |s| && s[j] == d[0]
  {
    if 0 <= j < |s| {
      assert s[j..j + 1] == [s[j]];
    }
  }

  /** The first occurrence of `d` in `s` at or after `k` (PHP `strpos($s, $d, $k)`). */
  function FindFrom(s: string, d: string, k: nat): (r: Option<nat>)
    requires |d| > 0
    ensures r.Some? ==> k <= r.value && OccursAt(s, d, r.value)
    decreases |s| - k
  {
    if k + |d| > |s| then None
    else if OccursAt(s, d, k) then Some(k)
    else FindFrom(s, d, k + 1)
  }

  /** `FindFrom` finds the earliest occurrence, and reports none only when there is none. */
  lemma {:induction false} FindFromEarliest(s: string, d: string, k: nat)
    requires |d| > 0
    ensures var r := FindFrom(s, d, k);
            && (r.Some? ==> forall j :: k <= j < r.value ==> !OccursAt(s, d, j))
            && (r.None? ==> forall j :: k <= j ==> !OccursAt(s, d, j))
    decreases |s| - k
  {
    if k + |d| <= |s| && !OccursAt(s, d, k) {
      FindFromEarliest(s, d, k + 1);
    }
  }

  /** The search from `k` stops at the first occurrence `i`. */
  lemma {:induction false} FindFromFirst(s: string, d: string, k: nat, i: nat)
    requires |d| > 0 && k <= i && OccursAt(s, d, i)
    requires forall j :: k <= j < i ==> !OccursAt(s, d, j)
    ensures FindFrom(s, d, k) == Some(i)
    decreases i - k
  {
    if k < i {
      assert !OccursAt(s, d, k);
      FindFromFirst(s, d, k + 1, i);
    }
  }

  /**
   * `explode($d, $s)` for a non-empty delimiter: the pieces between the
   * successive leftmost non-overlapping occurrences of `d`.
   */
  function Split(s: string, d: string): (r: seq<string>)
    requires |d| > 0
    ensures |r| >= 1
    decreases |s|
  {
    match FindFrom(s, d, 0)
    case None => [s]
    case Some(i) => [s[..i]] + Split(s[i + |d|..], d)
  }

  /** The first piece is the text before the first occurrence of `d` (all of `s` if none). */
  lemma SplitHead(s: string, d: string)
    requires |d| > 0
    ensures var head := Split(s, d)[0];
            && head <= s
            && (|head| < |s| ==> OccursAt(s, d, |head|))
            && !Contains(head, d)
  {
    FindFromEarliest(s, d, 0);
    var head := match FindFrom(s, d, 0) case None => s case Some(i) => s[..i];
    assert Split(s, d)[0] == head;
    forall j | 0 <= j <= |head| && OccursAt(head, d, j) ensures false {
      assert s[j..j + |d|] == head[j..j + |d|];
      assert OccursAt(s, d, j);
    }
  }

  /** No piece of `explode($d, $s)` contains the delimiter. */
  lemma {:induction false} SplitPiecesAvoidDelimiter(s: string, d: string)
    requires |d| > 0
    ensures forall i :: 0 <= i < |Split(s, d)| ==> !Contains(Split(s, d)[i], d)
    decreases |s|
  {
    SplitHead(s, d);
    match FindFrom(s, d, 0)
    case None =>
    case Some(i) =>
      SplitPiecesAvoidDelimiter(s[i + |d|..], d);
  }

  /** Why `explode` can fail: PHP 8 throws a ValueError for an empty delimiter. */
  datatype ExplodeError = EmptyDelimiter

  /** `explode($delimiter, $s)` without a limit. */
  function Explode(delimiter: string, s: string): (r: Result<seq<string>, ExplodeError>)
    ensures r.Err? <==> delimiter == []
    ensures r.Ok? ==> |r.value| >= 1
  {
    if delimiter == [] then Err(EmptyDelimiter) else Ok(Split(s, delimiter))
  }

  /** `implode($d, $parts)`. */
  function Implode(d: string, parts: seq<string>): string
    decreases |parts|
  {
    if |parts| == 0 then []
    else if |parts| == 1 then parts[0]
    else parts[0] + d + Implode(d, parts[1..])
  }

  /** Imploding a piece in front of a non-empty list puts the delimiter between them. */
  lemma ImplodeCons(d: string, p: string, tail: seq<string>)
    requires |tail| >= 1
    ensures Implode(d, [p] + tail) == p + d + Implode(d, tail)
  {
    assert ([p] + tail)[1..] == tail;
  }

  /** A string is the text before an occurrence of `d`, then `d`, then the rest. */
  lemma AroundOccurrence(s: string, d: string, i: nat)
    requires OccursAt(s, d, i)
    ensures s == s[..i] + d + s[i + |d|..]
  {
    assert s[i..i + |d|] == d;
    assert s == s[..i] + s[i..i + |d|] + s[i + |d|..];
  }

  /** `implode($d, explode($d, $s)) === $s`: splitting loses nothing. */
  lemma {:induction false} ImplodeSplit(s: string, d: string)
    requires |d| > 0
    ensures Implode(d, Split(s, d)) == s
    decreases |s|
  {
    match FindFrom(s, d, 0)
    case None =>
    case Some(i) =>
      var rest := s[i + |d|..];
      ImplodeSplit(rest, d);
      ImplodeCons(d, s[..i], Split(rest, d));
      AroundOccurrence(s, d, i);
  }

  /** Splitting when the first occurrence of `d` is at `i`. */
  lemma SplitAt(s: string, d: string, i: nat)
    requires |d| > 0 && OccursAt(s, d, i)
    requires forall j :: 0 <= j < i ==> !OccursAt(s, d, j)
    ensures Split(s, d) == [s[..i]] + Split(s[i + |d|..], d)
  {
    FindFromFirst(s, d, 0, i);
  }

  /** A string without the one-character delimiter explodes to itself alone. */
  lemma SplitWhole(s: string, d: string)
    requires |d| == 1 && d[0] !in s
    ensures Split(s, d) == [s]
  {
    FindFromEarliest(s, d, 0);
    var f := FindFrom(s, d, 0);
    if f.Some? {
      OneCharOccursAt(s, d, f.value);
    }
  }

  /** `p + d + rest` explodes to `p` followed by the pieces of `rest`. */
  lemma SplitFirstPiece(p: string, d: string, rest: string)
    requires |d| == 1 && d[0] !in p
    ensures Split(p + d + rest, d) == [p] + Split(rest, d)
  {
    var s := p + d + rest;
    OneCharOccursAt(s, d, |p|);
    forall j | 0 <= j < |p| ensures !OccursAt(s, d, j) {
      OneCharOccursAt(s, d, j);
      assert s[j] == p[j];
    }
    SplitAt(s, d, |p|);
    assert s[..|p|] == p;
    assert s[|p| + |d|..] == rest;
  }

  /**
   * For a one-character delimiter, `explode` undoes `implode`: pieces that do
   * not contain the delimiter come back exactly.
   */
  lemma {:induction false} SplitImplode(d: string, parts: seq<string>)
    requires |d| == 1 && |parts| >= 1
    requires forall i :: 0 <= i < |parts| ==> d[0] !in parts[i]
    ensures Split(Implode(d, parts), d) == parts
    decreases |parts|
  {
    if |parts| == 1 {
      SplitWhole(parts[0], d);
    } else {
      var p, tail := parts[0], parts[1..];
      var rest := Implode(d, tail);
      assert forall i :: 0 <= i < |tail| ==> tail[i] == parts[i + 1];
      SplitFirstPiece(p, d, rest);
      SplitImplode(d, tail);
      assert parts == [p] + tail;
    }
  }

  // ------------------------------------------------------------ strtr array

  /** A replacement table as PHP's `strtr($s, [$from => $to, ...])` takes it. */
  type Rules = seq<(string, string)>

  predicate KeysNonEmpty(rules: Rules)
  {
    forall q :: q in rules ==> q.0 != []
  }

  /** The rule `strtr` applies at the front of `s`: the longest key that is a prefix of `s`. */
  function LongestRuleAt(rules: Rules, s: string): (r: Option<(string, string)>)
    ensures r.Some? ==> r.value in rules && r.value.0 <= s
    decreases |rules|
  {
    if rules == [] then None
    else
      var rest := LongestRuleAt(rules[1..], s);
      if !(rules[0].0 <= s) then rest
      else if rest.Some? && |rest.value.0| > |rules[0].0| then rest
      else Some(rules[0])
  }

  /** No key is a longer prefix of `s` than the chosen one, and none is chosen only when no key is a prefix. */
  lemma {:induction false} LongestRuleAtIsLongest(rules: Rules, s: string)
    ensures var r := LongestRuleAt(rules, s);
            && (r.Some? ==> forall q :: q in rules && q.0 <= s ==> |q.0| <= |r.value.0|)
            && (r.None? <==> forall q :: q in rules ==> !(q.0 <= s))
    decreases |rules|
  {
    if rules != [] {
      LongestRuleAtIsLongest(rules[1..], s);
      assert forall q :: q in rules ==> q == rules[0] || q in rules[1..];
    }
  }

  /**
   * `strtr($s, $rules)`: scan left to right; at each position replace the
   * longest key found there and continue after it (replaced text is never
   * rescanned), otherwise copy one character.
   */
  function Strtr(s: string, rules: Rules): string
    requires KeysNonEmpty(rules)
    decreases |s|
  {
    if s == [] then []
    else match LongestRuleAt(rules, s)
      case Some(rule) => rule.1 + Strtr(s[|rule.0|..], rules)
      case None => [s[0]] + Strtr(s[1..], rules)
  }

  /** With no replacement longer than its key, `strtr` never lengthens its input. */
  lemma {:induction false} StrtrNeverGrows(s: string, rules: Rules)
    requires KeysNonEmpty(rules)
    requires forall q :: q in rules ==> |q.1| <= |q.0|
    ensures |Strtr(s, rules)| <= |s|
    decreases |s|
  {
    if s != [] {
      match LongestRuleAt(rules, s)
      case Some(rule) => StrtrNeverGrows(s[|rule.0|..], rules);
      case None => StrtrNeverGrows(s[1..], rules);
    }
  }

  /** No key of `rules` starts at position `j` of `s`. */
  predicate NoRuleAt(rules: Rules, s: string, j: nat)
    requires j <= |s|
  {
    forall q :: q in rules ==> !(q.0 <= s[j..])
  }

  /** Where no key starts, `strtr` copies one character and moves on. */
  lemma StrtrCopiesOne(t: string, rules: Rules)
    requires KeysNonEmpty(rules) && t != []
    requires NoRuleAt(rules, t, 0)
    ensures Strtr(t, rules) == [t[0]] + Strtr(t[1..], rules)
  {
    assert t[0..] == t;
    LongestRuleAtIsLongest(rules, t);
  }

  /** Between `k` and `m` no key starts, so that stretch is copied through unchanged. */
  lemma {:induction false} StrtrCopiesFrom(s: string, k: nat, m: nat, rules: Rules)
    requires KeysNonEmpty(rules)
    requires k <= m <= |s|
    requires forall j :: k <= j < m ==> NoRuleAt(rules, s, j)
    ensures Strtr(s[k..], rules) == s[k..m] + Strtr(s[m..], rules)
    decreases m - k
  {
    if k < m {
      var t := s[k..];
      assert NoRuleAt(rules, s, k);
      assert t[0..] == t;
      StrtrCopiesOne(t, rules);
      assert t[1..] == s[k + 1..];
      StrtrCopiesFrom(s, k + 1, m, rules);
      assert s[k..m] == [t[0]] + s[k + 1..m];
    }
  }

  /** Text in front of `b` where no key starts is copied through unchanged. */
  lemma StrtrCopies(a: string, b: string, rules: Rules)
    requires KeysNonEmpty(rules)
    requires forall j :: 0 <= j < |a| ==> NoRuleAt(rules, a + b, j)
    ensures Strtr(a + b, rules) == a + Strtr(b, rules)
  {
    var s := a + b;
    StrtrCopiesFrom(s, 0, |a|, rules);
    assert s[0..] == s && s[0..|a|] == a && s[|a|..] == b;
  }

  /** A string where no key starts anywhere comes back unchanged. */
  lemma StrtrIdentity(s: string, rules: Rules)
    requires KeysNonEmpty(rules)
    requires forall j :: 0 <= j < |s| ==> NoRuleAt(rules, s, j)
    ensures Strtr(s, rules) == s
  {
    assert s + [] == s;
    StrtrCopies(s, [], rules);
  }

  /** The longest key at the front of `k + b` is `k`: it is replaced, and `b` is processed on its own. */
  lemma StrtrReplaces(k: string, v: string, b: string, rules: Rules)
    requires KeysNonEmpty(rules)
    requires LongestRuleAt(rules, k + b) == Some((k, v))
    ensures Strtr(k + b, rules) == v + Strtr(b, rules)
  {
    assert (k + b)[|k|..] == b;
  }

  /**
   * One step of the scan: text `a` where no key starts is copied, the key `k`
   * chosen after it is replaced by `v`, and the scan resumes after `k`.
   */
  lemma StrtrStep(a: string, k: string, v: string, rest: string, rules: Rules)
    requires KeysNonEmpty(rules)
    requires forall j :: 0 <= j < |a| ==> NoRuleAt(rules, a + k + rest, j)
    requires LongestRuleAt(rules, k + rest) == Some((k, v))
    ensures Strtr(a + k + rest, rules) == a + v + Strtr(rest, rules)
  {
    assert a + k + rest == a + (k + rest);
    StrtrCopies(a, k + rest, rules);
    StrtrReplaces(k, v, rest, rules);
  }

  // --------------------------------------------------------------- basename

  /** The text after the last `/` of `t` (all of `t` when it has none). */
  function AfterLastSlash(t: string): string
    decreases |t|
  {
    if t == [] || t[|t| - 1] == '/' then []
    else AfterLastSlash(t[..|t| - 1]) + [t[|t| - 1]]
  }

  /** `basename($path)`: trailing slashes are ignored, then the last component is kept. */
  function Basename(path: string): string
  {
    AfterLastSlash(TrimRight(path, '/'))
  }

  /** The last component is a slash-free suffix that starts right after a slash (or at the start). */
  lemma {:induction false} AfterLastSlashResult(t: string)
    ensures var r := AfterLastSlash(t);
            && '/' !in r
            && |r| <= |t| && r == t[|t| - |r|..]
            && (|r| < |t| ==> t[|t| - |r| - 1] == '/')
    decreases |t|
  {
    if t != [] && t[|t| - 1] != '/' {
      var init := t[..|t| - 1];
      AfterLastSlashResult(init);
      assert t == init + [t[|t| - 1]];
    }
  }

  /** A basename never contains a slash. */
  lemma BasenameHasNoSlash(path: string)
    ensures '/' !in Basename(path)
  {
    AfterLastSlashResult(TrimRight(path, '/'));
  }

  /** The text after the last slash of `dir/name` is `name`. */
  lemma {:induction false} AfterLastSlashOf(dir: string, name: string)
    requires '/' !in name
    ensures AfterLastSlash(dir + "/" + name) == name
    decreases |name|
  {
    var p := dir + "/" + name;
    if name != [] {
      var init := name[..|name| - 1];
      assert p[..|p| - 1] == dir + "/" + init;
      AfterLastSlashOf(dir, init);
      assert init + [name[|name| - 1]] == name;
    }
  }

  /** The basename of `dir/name` is `name`, whatever the directory. */
  lemma BasenameOf(dir: string, name: string)
    requires '/' !in name && name != []
    ensures Basename(dir + "/" + name) == name
  {
    var p := dir + "/" + name;
    assert p[|p| - 1] == name[|name| - 1];
    TrimRightPadded('/', p, 0);
    assert p + Rep('/', 0) == p;
    AfterLastSlashOf(dir, name);
  }
}
