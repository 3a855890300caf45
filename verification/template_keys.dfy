/** The `renameKey` option installed by the `templates` task
    (generator.js:236-241): a template's relative path becomes its registry key
    by dropping a leading `templates|docs` + `layouts|includes` prefix and then
    the extension that `path.extname` finds in the UNSTRIPPED path. */
module TemplateKeys {
  import opened Common

  const FirstGroup: seq<string> := ["templates", "docs"]
  const SecondGroup: seq<string> := ["layouts", "includes"]

  /** One way `^(templates|docs)\/?(layouts|includes)\/?` can match. */
  datatype Prefix = Prefix(group1: string, slash1: string, group2: string, slash2: string)
  {
    predicate WellFormed()
    {
      && group1 in FirstGroup
      && slash1 in ["", "/"]
      && group2 in SecondGroup
      && slash2 in ["", "/"]
    }

    function Text(): string
    {
      group1 + slash1 + group2 + slash2
    }
  }

  /** Regex alternation `(a|b|...)`: the first alternative the text starts with. */
  function FirstAlternative(s: string, alternatives: seq<string>): (r: Option<string>)
    ensures r.Some? ==> r.value in alternatives && StartsWith(s, r.value)
    ensures r.None? ==> forall a :: a in alternatives ==> !StartsWith(s, a)
  {
    if |alternatives| == 0 then None
    else if StartsWith(s, alternatives[0]) then Some(alternatives[0])
    else FirstAlternative(s, alternatives[1..])
  }

  /** When the alternatives start with pairwise different characters, the one
      the text starts with is the one alternation picks. */
  lemma FirstAlternativeOfDistinctHeads(s: string, alternatives: seq<string>, a: string)
    requires a in alternatives && StartsWith(s, a)
    requires forall b :: b in alternatives ==> |b| > 0
    requires forall i, j :: 0 <= i < j < |alternatives| ==> alternatives[i][0] != alternatives[j][0]
    ensures FirstAlternative(s, alternatives) == Some(a)
  {
    if alternatives[0] != a {
      assert s[..|a|][0] == a[0];
      FirstAlternativeOfDistinctHeads(s, alternatives[1..], a);
    }
  }

  /** Greedy `\/?`. */
  function OptionalSlash(s: string): (r: string)
    ensures r in ["", "/"] && StartsWith(s, r)
    ensures r == "" <==> |s| == 0 || s[0] != '/'
  {
    if |s| > 0 && s[0] == '/' then "/" else ""
  }

  /** `(layouts|includes)\/?` at the start of `t`. */
  function MatchSecond(t: string): (m: Option<(string, string)>)
    ensures m.Some? ==>
              && m.value.0 in SecondGroup
              && m.value.1 in ["", "/"]
              && StartsWith(t, m.value.0 + m.value.1)
              && (m.value.1 == "" ==> |t| == |m.value.0| || t[|m.value.0|] != '/')
  {
    match FirstAlternative(t, SecondGroup)
    case None => None
    case Some(g2) =>
      var s2 := OptionalSlash(t[|g2|..]);
      StartsWithAppend(t, g2, s2);
      assert s2 == "" && |g2| < |t| ==> t[|g2|..][0] == t[|g2|];
      Some((g2, s2))
  }

  /** The anchored match of `^(templates|docs)\/?(layouts|includes)\/?`, if any.
      Backtracking never changes the outcome: the alternatives of each group
      start with different letters, and neither starts with `/`. */
  function PrefixMatch(name: string): (m: Option<Prefix>)
    ensures m.Some? ==> m.value.WellFormed() && StartsWith(name, m.value.Text())
    ensures m.Some? && m.value.slash2 == "" ==>
              |name| == |m.value.Text()| || name[|m.value.Text()|] != '/'
  {
    match FirstAlternative(name, FirstGroup)
    case None => None
    case Some(g1) =>
      var s1 := OptionalSlash(name[|g1|..]);
      var at := |g1| + |s1|;
      StartsWithAppend(name, g1, s1);
      match MatchSecond(name[at..])
      case None => None
      case Some((g2, s2)) =>
        StartsWithAppend(name, g1 + s1, g2 + s2);
        assert g1 + s1 + (g2 + s2) == Prefix(g1, s1, g2, s2).Text();
        assert s2 == "" && at + |g2| < |name| ==> name[at..][|g2|] == name[at + |g2|];
        Some(Prefix(g1, s1, g2, s2))
  }

  lemma PrefixHasNoDot(p: Prefix)
    requires p.WellFormed()
    ensures '.' !in p.Text()
  {
  }

  /** `name.replace(/^(templates|docs)\/?(layouts|includes)\/?/, '')`. */
  function StripTemplatePrefix(name: string): (r: string)
    ensures PrefixMatch(name).None? ==> r == name
    ensures PrefixMatch(name).Some? ==> PrefixMatch(name).value.Text() + r == name
    ensures IsSuffix(r, name)
    ensures forall k :: 0 <= k < |name| - |r| ==> name[k] != '.'
  {
    match PrefixMatch(name)
    case None => name
    case Some(p) =>
      PrefixHasNoDot(p);
      assert name[..|p.Text()|] == p.Text();
      assert forall k :: 0 <= k < |p.Text()| ==> name[k] == p.Text()[k];
      assert name == name[..|p.Text()|] + name[|p.Text()|..];
      name[|p.Text()|..]
  }

  lemma MatchSecondComplete(g2: string, s2: string, rest: string)
    requires g2 in SecondGroup && s2 in ["", "/"]
    requires s2 == "" ==> rest == [] || rest[0] != '/'
    ensures MatchSecond(g2 + s2 + rest) == Some((g2, s2))
  {
    var t := g2 + (s2 + rest);
    assert g2 + s2 + rest == t;
    assert t[..|g2|] == g2;
    FirstAlternativeOfDistinctHeads(t, SecondGroup, g2);
    assert t[|g2|..] == s2 + rest;
  }

  /** The first group and its greedy optional slash are recognised when the
      text after them does not start with `/`. */
  lemma FirstGroupComplete(name: string, g1: string, s1: string)
    requires g1 in FirstGroup && s1 in ["", "/"]
    requires |g1| + |s1| < |name|
    requires name[..|g1| + |s1|] == g1 + s1
    requires name[|g1| + |s1|] != '/'
    ensures FirstAlternative(name, FirstGroup) == Some(g1)
    ensures OptionalSlash(name[|g1|..]) == s1
  {
    var n := |g1|;
    assert name[..n] == g1 by {
      assert name[..n] == name[..n + |s1|][..n];
    }
    FirstAlternativeOfDistinctHeads(name, FirstGroup, g1);
    if s1 == "/" {
      assert name[n] == (g1 + s1)[n];
    }
  }

  /** Every well-formed prefix is recognised, with the greedy trailing `/`. */
  lemma PrefixMatchComplete(p: Prefix, rest: string)
    requires p.WellFormed()
    requires p.slash2 == "" ==> rest == [] || rest[0] != '/'
    ensures PrefixMatch(p.Text() + rest) == Some(p)
  {
    var name := p.Text() + rest;
    var head := p.group1 + p.slash1;
    var t2 := p.group2 + p.slash2 + rest;
    assert name == head + t2;
    assert name[..|head|] == head;
    assert name[|head|..] == t2;
    assert name[|head|] == p.group2[0];
    FirstGroupComplete(name, p.group1, p.slash1);
    MatchSecondComplete(p.group2, p.slash2, rest);
  }

  /** Stripping a well-formed prefix leaves exactly the rest of the name. */
  lemma StripPrefixComplete(p: Prefix, rest: string)
    requires p.WellFormed()
    requires p.slash2 == "" ==> rest == [] || rest[0] != '/'
    ensures StripTemplatePrefix(p.Text() + rest) == rest
  {
    PrefixMatchComplete(p, rest);
    assert (p.Text() + rest)[|p.Text()|..] == rest;
  }

  /** The match is anchored: a name that does not start with `templates` or
      `docs` is left alone, whatever it contains further on. */
  lemma StripIsAnchored(name: string)
    requires !StartsWith(name, "templates") && !StartsWith(name, "docs")
    ensures StripTemplatePrefix(name) == name
  {
  }

  // ---------------------------------------------------------------------------
  // `path.extname` (Node.js, POSIX flavour)
  // ---------------------------------------------------------------------------

  /** The greatest index below `hi` holding `c`, or -1. */
  function LastBefore(s: string, c: char, hi: nat): (r: int)
    requires hi <= |s|
    ensures -1 <= r < hi
    ensures 0 <= r ==> s[r] == c
    ensures forall k :: r < k < hi ==> s[k] != c
  {
    if hi == 0 then -1
    else if s[hi - 1] == c then hi - 1
    else LastBefore(s, c, hi - 1)
  }

  /** Where the path below `hi` ends once trailing `/` are ignored. */
  function TrimBefore(s: string, hi: nat): (e: nat)
    requires hi <= |s|
    ensures e <= hi
    ensures forall k :: e <= k < hi ==> s[k] == '/'
    ensures e == 0 || s[e - 1] != '/'
  {
    if hi == 0 || s[hi - 1] != '/' then hi else TrimBefore(s, hi - 1)
  }

  /** Where the last path segment starts and ends. */
  function BaseSpan(name: string): (span: (nat, nat))
    ensures span.0 <= span.1 <= |name|
    ensures forall k :: span.0 <= k < span.1 ==> name[k] != '/'
    ensures span.0 == 0 || name[span.0 - 1] == '/'
    ensures forall k :: span.1 <= k < |name| ==> name[k] == '/'
    ensures span.1 == 0 || name[span.1 - 1] != '/'
  {
    var end := TrimBefore(name, |name|);
    (LastBefore(name, '/', end) + 1, end)
  }

  function Basename(name: string): string
  {
    name[BaseSpan(name).0..BaseSpan(name).1]
  }

  /** The segment `name[start..end]` is exactly `..`. */
  predicate IsDotDot(name: string, start: nat, end: nat)
    requires start <= end <= |name|
  {
    end == start + 2 && name[start] == '.' && name[start + 1] == '.'
  }

  /** Where `path.extname(name)` lies inside `name`; `start == end` means "no
      extension". The extension runs from the last `.` of the last segment to
      the segment's end, unless that `.` opens the segment or the segment is `..`. */
  function ExtSpan(name: string): (span: (nat, nat))
    ensures span.0 <= span.1 == BaseSpan(name).1
    ensures span.0 < span.1 ==>
              && BaseSpan(name).0 < span.0
              && name[span.0] == '.'
              && forall k :: span.0 < k < span.1 ==> name[k] != '.'
    ensures span.0 == span.1 <==>
              || (forall k :: BaseSpan(name).0 < k < BaseSpan(name).1 ==> name[k] != '.')
              || IsDotDot(name, BaseSpan(name).0, BaseSpan(name).1)
  {
    var (start, end) := BaseSpan(name);
    var dot := LastBefore(name, '.', end);
    if dot <= start || IsDotDot(name, start, end) then (end, end) else (dot, end)
  }

  /** `path.extname(name)`. */
  function Extname(name: string): (ext: string)
    ensures ext == "" || ext[0] == '.'
    ensures forall k :: 0 < k < |ext| ==> ext[k] != '.' && ext[k] != '/'
    ensures ext != "" ==> IsSuffix(ext, Basename(name)) && |ext| < |Basename(name)|
    ensures (|name| == 0 || name[|name| - 1] != '/') ==> IsSuffix(ext, name)
  {
    var (s, e) := ExtSpan(name);
    var (bs, be) := BaseSpan(name);
    assert forall k :: 0 <= k < e - s ==> name[s..e][k] == name[s + k];
    assert s < e ==> name[bs..be][be - bs - (e - s)..] == name[s..e];
    assert (|name| == 0 || name[|name| - 1] != '/') ==> be == |name|;
    name[s..e]
  }

  // ---------------------------------------------------------------------------
  // renameKey
  // ---------------------------------------------------------------------------

  /** A string is a prefix of it followed by the suffix that fills the rest. */
  lemma PrefixThenSuffix(s: string, prefix: string, suffix: string)
    requires StartsWith(s, prefix) && IsSuffix(suffix, s)
    requires |prefix| + |suffix| == |s|
    ensures prefix + suffix == s
  {
    assert s == s[..|prefix|] + s[|prefix|..];
  }

  /** The extension of the unstripped name always fits in the stripped string,
      because the stripped prefix holds no `.`. */
  lemma ExtFitsStripped(name: string)
    ensures |Extname(name)| <= |StripTemplatePrefix(name)|
  {
    var (s, e) := ExtSpan(name);
    var str := StripTemplatePrefix(name);
    assert s < e ==> name[s] == '.' && |name| - |str| <= s;
  }

  /** `renameKey(key, file)` on the file's relative path `name`
      (generator.js:237-240). JavaScript's `slice(0, length - ext.length)`
      never sees a negative end here (ExtFitsStripped). */
  function RenameKey(name: string): (key: string)
    ensures |key| + |Extname(name)| == |StripTemplatePrefix(name)|
    ensures StartsWith(StripTemplatePrefix(name), key)
  {
    var ext := Extname(name);
    var str := StripTemplatePrefix(name);
    ExtFitsStripped(name);
    if ext != "" then str[..|str| - |ext|] else str
  }

  /** For a path that does not end in `/`, the key followed by the extension
      gives back exactly the stripped path. */
  lemma RenameKeyRoundTrip(name: string)
    requires |name| == 0 || name[|name| - 1] != '/'
    ensures RenameKey(name) + Extname(name) == StripTemplatePrefix(name)
  {
    var str := StripTemplatePrefix(name);
    var ext := Extname(name);
    SuffixOfSuffix(ext, str, name);
    PrefixThenSuffix(str, RenameKey(name), ext);
  }

  /** The usual shape of a template path: a stem not ending in `/`, then a
      `.` and at least one character that is neither `.` nor `/`. The
      extension `path.extname` reports is exactly that tail. */
  lemma ExtnameOfSplit(name: string, stem: string, ext: string)
    requires name == stem + ext
    requires |stem| > 0 && stem[|stem| - 1] != '/'
    requires |ext| > 1 && ext[0] == '.'
    requires forall k :: 0 < k < |ext| ==> ext[k] != '.' && ext[k] != '/'
    ensures Extname(name) == ext
  {
    var (bs, be) := BaseSpan(name);
    assert name[|name| - 1] == ext[|ext| - 1];
    assert be == |name|;
    assert name[|stem| - 1] == stem[|stem| - 1];
    assert forall k :: |stem| <= k < |name| ==> name[k] == ext[k - |stem|];
    assert bs < |stem|;
    var (s, e) := ExtSpan(name);
    assert name[|stem|] == '.';
    assert !IsDotDot(name, bs, be);
    assert s == |stem|;
  }

  lemma RenameKeyOfSplit(name: string, stem: string, ext: string)
    requires name == stem + ext
    requires |stem| > 0 && stem[|stem| - 1] != '/'
    requires |ext| > 1 && ext[0] == '.'
    requires forall k :: 0 < k < |ext| ==> ext[k] != '.' && ext[k] != '/'
    ensures RenameKey(name) + ext == StripTemplatePrefix(name)
  {
    ExtnameOfSplit(name, stem, ext);
    RenameKeyRoundTrip(name);
  }

  lemma DropSuffix(a: string, suffix: string, s: string)
    requires a + suffix == s
    ensures a == s[..|s| - |suffix|]
  {
    assert s[..|a|] == a;
  }

  /** The reserved input names: `README.md` becomes `README`, `.verb.md` becomes `.verb`. */
  lemma ReadmeKey(name: string)
    requires name == "README.md"
    ensures RenameKey(name) == "README"
  {
    assert name[..4][0] == 'R' && name[..9][0] == 'R';
    StripIsAnchored(name);
    assert name == "README" + ".md";
    RenameKeyOfSplit(name, "README", ".md");
    assert name[..6] == "README";
  }

  lemma VerbKey(name: string)
    requires name == ".verb.md"
    ensures RenameKey(name) == ".verb"
  {
    assert name[..4][0] == '.' && |name| < |"templates"|;
    StripIsAnchored(name);
    assert name == ".verb" + ".md";
    RenameKeyOfSplit(name, ".verb", ".md");
    assert name[..5] == ".verb";
  }

  /** A `docs/` path keeps its `docs/`: both groups are required. */
  lemma DocsWithoutSecondGroup(name: string)
    requires name == "docs/foo.md"
    ensures RenameKey(name) == "docs/foo"
  {
    assert name[..4] == "docs";
    FirstAlternativeOfDistinctHeads(name, FirstGroup, "docs");
    assert name[4..] == "/foo.md";
    assert name[5..] == "foo.md";
    assert PrefixMatch(name) == None;
    assert name == "docs/foo" + ".md";
    RenameKeyOfSplit(name, "docs/foo", ".md");
  }

  lemma LayoutPrefixStripped(name: string)
    requires name == "templates/layouts/default.md"
    ensures StripTemplatePrefix(name) == "default.md"
  {
    var p := Prefix("templates", "/", "layouts", "/");
    assert name == p.Text() + "default.md";
    StripPrefixComplete(p, "default.md");
  }

  /** A template under one of the stripped folders is keyed by its stem: the
      folders and the extension both go. */
  lemma RenameKeyOfTemplate(p: Prefix, stem: string, ext: string)
    requires p.WellFormed()
    requires |stem| > 0 && stem[|stem| - 1] != '/'
    requires p.slash2 == "" ==> stem[0] != '/'
    requires |ext| > 1 && ext[0] == '.'
    requires forall k :: 0 < k < |ext| ==> ext[k] != '.' && ext[k] != '/'
    ensures RenameKey(p.Text() + stem + ext) == stem
  {
    var name := p.Text() + stem + ext;
    var rest := stem + ext;
    assert name == p.Text() + rest;
    assert rest[0] == stem[0];
    StripPrefixComplete(p, rest);
    var whole := p.Text() + stem;
    assert whole[|whole| - 1] == stem[|stem| - 1];
    RenameKeyOfSplit(name, whole, ext);
    DropSuffix(RenameKey(name), ext, rest);
    assert rest[..|rest| - |ext|] == stem;
  }

  /** A layout path loses both groups and its extension. */
  lemma LayoutKey(name: string)
    requires name == "templates/layouts/default.md"
    ensures RenameKey(name) == "default"
  {
    var p := Prefix("templates", "/", "layouts", "/");
    assert name == p.Text() + "default" + ".md";
    RenameKeyOfTemplate(p, "default", ".md");
  }
}
