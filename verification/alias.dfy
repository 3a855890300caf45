/** The two `toAlias` strategies that derive a short alias from a package
    name (generator.js:35-40 and :121-123).

    Both regular expressions of the default strategy are modelled as
    hand-written left-to-right scanners:
    - the guard    `/^verb-.*?-\w/`           (GuardTest),
    - the rewrite  `/^verb-(.*?)-(?:\w+)/`    (MatchVerb / ReplaceVerb, `$1` kept).
    As in JavaScript, `.` matches any character except a line terminator and
    `\w` is `[A-Za-z0-9_]`. */
module Alias {
  import opened Common

  const VerbPrefix: string := "verb-"
  const GeneratePrefix: string := "generate-"

  /** `\w` of a JavaScript regular expression. */
  predicate IsWordChar(c: char)
  {
    ('a' <= c <= 'z') || ('A' <= c <= 'Z') || ('0' <= c <= '9') || c == '_'
  }

  /** The characters a JavaScript `.` refuses to match. */
  predicate IsLineTerminator(c: char)
  {
    c == '\n' || c == '\r' || c == '\U{2028}' || c == '\U{2029}'
  }

  /** Reference meaning of both regexes: after `verb-`, the lazy `.*?` can stop at
      index `i` (everything it skipped is matchable by `.`) and there `-` is
      followed by a word character. */
  ghost predicate SeparatorAt(name: string, i: int)
  {
    && |VerbPrefix| <= i
    && i + 1 < |name|
    && name[i] == '-'
    && IsWordChar(name[i + 1])
    && forall k :: |VerbPrefix| <= k < i ==> !IsLineTerminator(name[k])
  }

  /** The separator a lazy `.*?` settles on: the first one. */
  ghost predicate LeftmostSeparator(name: string, i: int)
  {
    SeparatorAt(name, i) && forall j :: |VerbPrefix| <= j < i ==> !SeparatorAt(name, j)
  }

  /** `e` ends the maximal run of word characters that starts at `j`: what a
      greedy `\w+` consumes there. */
  ghost predicate WordRunEndsAt(name: string, j: int, e: int)
  {
    && 0 <= j <= e <= |name|
    && (forall k :: j <= k < e ==> IsWordChar(name[k]))
    && (e == |name| || !IsWordChar(name[e]))
  }

  // ---------------------------------------------------------------------------
  // The guard `/^verb-.*?-\w/.test(name)` (generator.js:36)
  // ---------------------------------------------------------------------------

  /** Scans for `-\w` from index `i`; a line terminator stops `.*?` for good. */
  function GuardFrom(name: string, i: nat): (found: bool)
    requires |VerbPrefix| <= i <= |name|
    requires forall k :: |VerbPrefix| <= k < i ==> !IsLineTerminator(name[k])
    ensures found <==> exists j :: i <= j && SeparatorAt(name, j)
    decreases |name| - i
  {
    if i == |name| then false
    else if name[i] == '-' && i + 1 < |name| && IsWordChar(name[i + 1]) then
      assert SeparatorAt(name, i);
      true
    else if IsLineTerminator(name[i]) then false
    else GuardFrom(name, i + 1)
  }

  /** `/^verb-.*?-\w/.test(name)`. */
  predicate GuardTest(name: string)
    ensures GuardTest(name) <==> StartsWith(name, VerbPrefix) && exists i :: SeparatorAt(name, i)
  {
    StartsWith(name, VerbPrefix) && GuardFrom(name, |VerbPrefix|)
  }

  // ---------------------------------------------------------------------------
  // The rewrite `name.replace(/^verb-(.*?)-(?:\w+)/, '$1')` (generator.js:37)
  // ---------------------------------------------------------------------------

  /** Greedy `\w*` from `j`: the first index at or after `j` that is not a word character. */
  function WordRunEnd(name: string, j: nat): (e: nat)
    requires j <= |name|
    ensures WordRunEndsAt(name, j, e)
    decreases |name| - j
  {
    if j < |name| && IsWordChar(name[j]) then WordRunEnd(name, j + 1) else j
  }

  /** Where the match splits: `$1` is `name[5..captureEnd]`, the match ends at `matchEnd`. */
  datatype VerbMatch = VerbMatch(captureEnd: nat, matchEnd: nat)

  /** Lazy `(.*?)` extended one character at a time until `-\w+` matches. */
  function ScanVerb(name: string, i: nat): (m: Option<VerbMatch>)
    requires |VerbPrefix| <= i <= |name|
    requires forall k :: |VerbPrefix| <= k < i ==> !IsLineTerminator(name[k])
    ensures m.None? <==> forall j :: i <= j ==> !SeparatorAt(name, j)
    ensures m.Some? ==>
              && i <= m.value.captureEnd
              && SeparatorAt(name, m.value.captureEnd)
              && (forall j :: i <= j < m.value.captureEnd ==> !SeparatorAt(name, j))
              && m.value.captureEnd + 1 < m.value.matchEnd
              && WordRunEndsAt(name, m.value.captureEnd + 1, m.value.matchEnd)
    decreases |name| - i
  {
    if i == |name| then None
    else if name[i] == '-' && WordRunEnd(name, i + 1) > i + 1 then
      assert SeparatorAt(name, i);
      Some(VerbMatch(i, WordRunEnd(name, i + 1)))
    else if IsLineTerminator(name[i]) then None
    else ScanVerb(name, i + 1)
  }

  /** The anchored match of `/^verb-(.*?)-(?:\w+)/`, if any. */
  function MatchVerb(name: string): (m: Option<VerbMatch>)
    ensures m.None? <==> !StartsWith(name, VerbPrefix) || forall j :: !SeparatorAt(name, j)
    ensures m.Some? ==>
              && StartsWith(name, VerbPrefix)
              && LeftmostSeparator(name, m.value.captureEnd)
              && m.value.captureEnd + 1 < m.value.matchEnd
              && WordRunEndsAt(name, m.value.captureEnd + 1, m.value.matchEnd)
  {
    if StartsWith(name, VerbPrefix) then ScanVerb(name, |VerbPrefix|) else None
  }

  /** `String.prototype.replace` with a non-global regex: the first match is
      replaced by `$1`; without a match the name comes back unchanged. */
  function ReplaceVerb(name: string): (r: string)
    ensures MatchVerb(name).None? ==> r == name
    ensures MatchVerb(name).Some? ==> |r| < |name|
  {
    match MatchVerb(name)
    case None => name
    case Some(m) => name[|VerbPrefix|..m.captureEnd] + name[m.matchEnd..]
  }

  // ---------------------------------------------------------------------------
  // The two strategies
  // ---------------------------------------------------------------------------

  /** `name.slice(name.lastIndexOf('-') + 1)` (generator.js:39). */
  function AfterLastHyphen(name: string): (r: string)
    ensures IsSuffix(r, name)
    ensures '-' !in r
    ensures '-' !in name ==> r == name
    ensures '-' in name ==> |r| < |name| && name[|name| - |r| - 1] == '-'
  {
    name[LastIndexOf(name, '-') + 1..]
  }

  /** The strategy installed by the `options` task (generator.js:35-40). */
  function ReadmeAlias(name: string): (r: string)
    ensures |r| <= |name|
    ensures GuardTest(name) ==> |r| < |name|
    ensures !GuardTest(name) ==> IsSuffix(r, name) && '-' !in r
  {
    if GuardTest(name) then ReplaceVerb(name) else AfterLastHyphen(name)
  }

  /** `name.replace(/^generate-/, '')`: only one leading `generate-` goes. */
  function StripGenerate(name: string): (r: string)
    ensures StartsWith(name, GeneratePrefix) ==> GeneratePrefix + r == name
    ensures !StartsWith(name, GeneratePrefix) ==> r == name
  {
    if StartsWith(name, GeneratePrefix) then
      assert name == name[..|GeneratePrefix|] + name[|GeneratePrefix|..];
      name[|GeneratePrefix|..]
    else name
  }

  /** The strategy installed by `data` for generators (generator.js:121-123);
      `camel` stands for `utils.camelcase`, which this model does not interpret. */
  function GeneratorAlias(camel: string -> string, name: string): (r: string)
    ensures StartsWith(name, GeneratePrefix) ==> r == camel(name[|GeneratePrefix|..])
    ensures !StartsWith(name, GeneratePrefix) ==> r == camel(name)
  {
    camel(StripGenerate(name))
  }

  /** The closed set of alias strategies an `app.option('toAlias', ...)` cell can hold. */
  datatype AliasStrategy = ReadmeStrategy | GeneratorStrategy

  function ToAlias(strategy: AliasStrategy, camel: string -> string, name: string): string
  {
    match strategy
    case ReadmeStrategy => ReadmeAlias(name)
    case GeneratorStrategy => GeneratorAlias(camel, name)
  }

  // ---------------------------------------------------------------------------
  // Properties
  // ---------------------------------------------------------------------------

  /** The guard at :36 holds exactly when the rewrite at :37 finds a match, so
      inside the guarded branch the replacement always fires. */
  lemma GuardIffRewriteMatches(name: string)
    ensures GuardTest(name) <==> MatchVerb(name).Some?
  {
  }

  /** `verb-` branch: the alias is the text between `verb-` and the first `-\w`,
      followed by whatever comes after that word run; it is strictly shorter. */
  lemma VerbBranch(name: string, i: int, e: int)
    requires StartsWith(name, VerbPrefix)
    requires LeftmostSeparator(name, i)
    requires WordRunEndsAt(name, i + 1, e)
    ensures ReadmeAlias(name) == name[|VerbPrefix|..i] + name[e..]
    ensures |ReadmeAlias(name)| < |name|
  {
    var m := ScanVerb(name, |VerbPrefix|);
    assert m.Some?;
    assert m.value.captureEnd == i;
    WordRunUnique(name, i + 1, e, m.value.matchEnd);
  }

  lemma WordRunUnique(name: string, j: int, e1: int, e2: int)
    requires WordRunEndsAt(name, j, e1) && WordRunEndsAt(name, j, e2)
    ensures e1 == e2
  {
  }

  /** Every name the guard accepts has a leftmost separator and a word run after it,
      so VerbBranch always applies there. */
  lemma GuardGivesSplit(name: string) returns (i: int, e: int)
    requires GuardTest(name)
    ensures StartsWith(name, VerbPrefix)
    ensures LeftmostSeparator(name, i)
    ensures WordRunEndsAt(name, i + 1, e)
  {
    var m := ScanVerb(name, |VerbPrefix|);
    i, e := m.value.captureEnd, m.value.matchEnd;
  }

  /** Other branch: the text after the last hyphen, which holds no hyphen, and
      the whole name when there is no hyphen (`lastIndexOf` gives -1, `slice(0)`). */
  lemma LastHyphenBranch(name: string)
    requires !GuardTest(name)
    ensures ReadmeAlias(name) == AfterLastHyphen(name)
    ensures '-' !in ReadmeAlias(name)
    ensures '-' !in name ==> ReadmeAlias(name) == name
  {
  }

  /** `verb-<middle>-<word>`, where `middle` holds no hyphen and no line
      terminator and `word` is all word characters, has `middle` as its alias. */
  lemma VerbMiddleWord(name: string, middle: string, word: string)
    requires name == VerbPrefix + middle + "-" + word
    requires forall k :: 0 <= k < |middle| ==> middle[k] != '-' && !IsLineTerminator(middle[k])
    requires |word| > 0 && forall k :: 0 <= k < |word| ==> IsWordChar(word[k])
    ensures ReadmeAlias(name) == middle
  {
    var i := |VerbPrefix| + |middle|;
    assert forall k :: |VerbPrefix| <= k < i ==> name[k] == middle[k - |VerbPrefix|];
    assert forall k :: i < k < |name| ==> name[k] == word[k - i - 1];
    assert name[..|VerbPrefix|] == VerbPrefix;
    assert name[i] == '-';
    assert LeftmostSeparator(name, i);
    assert WordRunEndsAt(name, i + 1, |name|);
    VerbBranch(name, i, |name|);
    assert name[|VerbPrefix|..i] == middle;
  }

  lemma ReadmeAliasOfVerbReadmeGenerator(name: string)
    requires name == "verb-readme-generator"
    ensures ReadmeAlias(name) == "readme"
  {
    var middle, word := "readme", "generator";
    assert name == VerbPrefix + middle + "-" + word;
    assert forall k :: 0 <= k < |middle| ==> 'a' <= middle[k] <= 'z';
    assert forall k :: 0 <= k < |word| ==> 'a' <= word[k] <= 'z';
    VerbMiddleWord(name, middle, word);
  }

  /** A later `-\w` is left in place: only the first word run after the capture goes. */
  lemma ReadmeAliasKeepsTail(name: string)
    requires name == "verb-foo-bar-baz"
    ensures ReadmeAlias(name) == "foo-baz"
  {
    assert SeparatorAt(name, 8);
    assert forall j :: |VerbPrefix| <= j < 8 ==> name[j] != '-';
    assert WordRunEndsAt(name, 9, 12);
    VerbBranch(name, 8, 12);
    assert name[5..8] == "foo";
    assert name[12..] == "-baz";
  }

  /** A `verb-` name without a second hyphen falls back to the last-hyphen rule. */
  lemma VerbNameWithoutSeparator(name: string)
    requires name == "verb-toc"
    ensures ReadmeAlias(name) == "toc"
  {
    assert forall j :: |VerbPrefix| <= j < |name| ==> name[j] != '-';
    assert !GuardTest(name);
    assert name[4] == '-';
    assert LastIndexOf(name, '-') == 4;
    assert name[5..] == "toc";
  }

  /** A name without the `verb-` prefix keeps what follows its last hyphen. */
  lemma OtherNameFallsBack(name: string)
    requires name == "markdown-toc"
    ensures ReadmeAlias(name) == "toc"
  {
    assert name[..|VerbPrefix|][0] != VerbPrefix[0];
    assert name[8] == '-';
    assert LastIndexOf(name, '-') == 8;
    assert name[9..] == "toc";
  }

  /** A name without any hyphen is its own alias. */
  lemma HyphenlessNameKept(name: string)
    requires name == "verb"
    ensures ReadmeAlias(name) == "verb"
  {
    assert !StartsWith(name, VerbPrefix);
    assert forall k :: 0 <= k < |name| ==> name[k] != '-';
  }

  /** The generator variant removes one leading `generate-` and nothing else. */
  lemma StripGenerateExamples()
    ensures StripGenerate("generate-readme") == "readme"
    ensures StripGenerate("generate-generate-x") == "generate-x"
    ensures StripGenerate("foo-generate-x") == "foo-generate-x"
  {
    assert "foo-generate-x"[0] != GeneratePrefix[0];
  }
}
