/**
  * The kernel CVE listing: the `Version` value type with its string-based
  * ordering, the selection of the stable tags between two versions from
  * `git ls-remote --tags` output, and the building of the changelog line of
  * CVE links from the titles of the announcement feed.
  */
module KernelCves {
  import opened Options
  import opened Text

  // ---------------------------------------------------------------------------
  // Versions.

  /** A version keeps its three components as strings, exactly as written. */
  datatype Version = Version(major: string, minor: string, patch: string)

  /** The value of a version string that does not have exactly three components. */
  const Invalid := Version("-1", "-1", "-1")

  /** The text after a single leading `v`, if there is one. */
  function StripV(v: string): string {
    if StartsWith(v, "v") then v[1..] else v
  }

  /** Builds a version from the dot-separated components, or `Invalid` unless there are three. */
  function FromParts(parts: seq<string>): Version {
    if |parts| == 3 then Version(parts[0], parts[1], parts[2]) else Invalid
  }

  /** `Version(v)`. */
  function Parse(v: string): Version {
    FromParts(Split(StripV(v), "."))
  }

  /** `str(version)`. */
  function Str(ver: Version): string {
    ver.major + "." + ver.minor + "." + ver.patch
  }

  predicate NoDots(ver: Version) {
    '.' !in ver.major && '.' !in ver.minor && '.' !in ver.patch
  }

  lemma StrIsJoin(ver: Version)
    ensures Str(ver) == Join([ver.major, ver.minor, ver.patch], ".")
  {
    JoinCons(ver.major, [ver.minor, ver.patch], ".");
    assert [ver.major] + [ver.minor, ver.patch] == [ver.major, ver.minor, ver.patch];
    JoinCons(ver.minor, [ver.patch], ".");
    assert [ver.minor] + [ver.patch] == [ver.minor, ver.patch];
  }

  /** Every component of a parsed version is free of dots. */
  lemma ParseHasNoDots(v: string)
    ensures NoDots(Parse(v))
  {
    SplitPiecesAvoidSep(StripV(v), ".");
    var parts := Split(StripV(v), ".");
    if |parts| == 3 {
      ContainsChar(parts[0], '.');
      ContainsChar(parts[1], '.');
      ContainsChar(parts[2], '.');
    }
  }

  /** A string with other than two dots after the optional `v` parses to the `-1` sentinels. */
  lemma ParseMalformed(v: string)
    requires CountChar(StripV(v), '.') != 2
    ensures Parse(v) == Invalid
  {
    SplitCharCount(StripV(v), '.');
  }

  /** A string with exactly two dots after the optional `v` is rendered back as that text. */
  lemma ParseThenStr(v: string)
    requires CountChar(StripV(v), '.') == 2
    ensures Str(Parse(v)) == StripV(v)
  {
    var parts := Split(StripV(v), ".");
    SplitCharCount(StripV(v), '.');
    JoinSplit(StripV(v), ".");
    StrIsJoin(Parse(v));
    assert [parts[0], parts[1], parts[2]] == parts;
  }

  /**
    * A version whose components hold no dot, and whose major component does not
    * start with `v`, is read back from its rendering, with or without a `v`.
    */
  lemma StrThenParse(ver: Version)
    requires NoDots(ver) && !StartsWith(ver.major, "v")
    ensures Parse(Str(ver)) == ver && Parse("v" + Str(ver)) == ver
  {
    var parts := [ver.major, ver.minor, ver.patch];
    StrIsJoin(ver);
    SplitCharJoin(parts, '.');
    if |ver.major| > 0 {
      assert Str(ver)[0] == ver.major[0];
      assert Str(ver)[..1] == ver.major[..1];
    } else {
      assert Str(ver)[0] == '.';
    }
    assert ("v" + Str(ver))[..1] == "v" && ("v" + Str(ver))[1..] == Str(ver);
  }

  /** `==` between versions compares the three components. */
  predicate Equal(a: Version, b: Version) {
    a.major == b.major && a.minor == b.minor && a.patch == b.patch
  }

  lemma EqualIsIdentity(a: Version, b: Version)
    ensures Equal(a, b) <==> a == b
  {
  }

  // ---------------------------------------------------------------------------
  // Ordering.

  /** Python's `<` on strings: code point by code point, a proper prefix first. */
  predicate StrLt(a: string, b: string)
    decreases |a|
  {
    if b == [] then false
    else if a == [] then true
    else if a[0] != b[0] then a[0] < b[0]
    else StrLt(a[1..], b[1..])
  }

  lemma {:induction false} StrLtIrreflexive(a: string)
    ensures !StrLt(a, a)
    decreases |a|
  {
    if a != [] {
      StrLtIrreflexive(a[1..]);
    }
  }

  lemma {:induction false} StrLtTransitive(a: string, b: string, c: string)
    requires StrLt(a, b) && StrLt(b, c)
    ensures StrLt(a, c)
    decreases |a|
  {
    if a != [] && a[0] == b[0] && b[0] == c[0] {
      StrLtTransitive(a[1..], b[1..], c[1..]);
    }
  }

  /** Of two different strings, one is smaller. */
  lemma {:induction false} StrLtTotal(a: string, b: string)
    requires a != b
    ensures StrLt(a, b) || StrLt(b, a)
    decreases |a|
  {
    if a != [] && b != [] && a[0] == b[0] {
      assert a == [a[0]] + a[1..] && b == [b[0]] + b[1..];
      StrLtTotal(a[1..], b[1..]);
    }
  }

  /** `<` on versions: the component triples in lexicographic order, comparing strings. */
  predicate Lt(a: Version, b: Version) {
    StrLt(a.major, b.major) ||
    (a.major == b.major && (StrLt(a.minor, b.minor) || (a.minor == b.minor && StrLt(a.patch, b.patch))))
  }

  /** `>=` on versions: not `<`. */
  predicate Ge(a: Version, b: Version) {
    !Lt(a, b)
  }

  lemma LtIrreflexive(a: Version)
    ensures !Lt(a, a)
  {
    StrLtIrreflexive(a.major);
    StrLtIrreflexive(a.minor);
    StrLtIrreflexive(a.patch);
  }

  lemma LtTransitive(a: Version, b: Version, c: Version)
    requires Lt(a, b) && Lt(b, c)
    ensures Lt(a, c)
  {
    if StrLt(a.major, b.major) && StrLt(b.major, c.major) {
      StrLtTransitive(a.major, b.major, c.major);
    } else if a.major == b.major && b.major == c.major {
      if StrLt(a.minor, b.minor) && StrLt(b.minor, c.minor) {
        StrLtTransitive(a.minor, b.minor, c.minor);
      } else if a.minor == b.minor && b.minor == c.minor {
        StrLtTransitive(a.patch, b.patch, c.patch);
      }
    }
  }

  lemma LtTotal(a: Version, b: Version)
    requires a != b
    ensures Lt(a, b) || Lt(b, a)
  {
    if a.major != b.major {
      StrLtTotal(a.major, b.major);
    } else if a.minor != b.minor {
      StrLtTotal(a.minor, b.minor);
    } else {
      StrLtTotal(a.patch, b.patch);
    }
  }

  /**
    * `v <= t`, for which Python falls back on the reflected `t >= v`, holds
    * exactly when `v` equals `t` or is smaller: the order is total.
    */
  lemma ReflectedLe(v: Version, t: Version)
    ensures Ge(t, v) <==> (v == t || Lt(v, t))
  {
    if v == t {
      LtIrreflexive(v);
    } else {
      LtTotal(v, t);
      if Lt(v, t) && Lt(t, v) {
        LtTransitive(v, t, v);
        LtIrreflexive(v);
      }
    }
  }

  // ---------------------------------------------------------------------------
  // Tags listed by `git ls-remote --tags`.

  const TagsRef := "refs/tags/"
  const Peeled := "^{}"

  /** An output line that names a tag: it holds `refs/tags/` and is not a peeled `^{}` entry. */
  predicate IsTagLine(line: string) {
    Contains(line, TagsRef) && !Contains(line, Peeled)
  }

  /** The version named by the text after the last `refs/tags/` of a line. */
  function TagOf(line: string): Version {
    Parse(Last(Split(line, TagsRef)))
  }

  /** The versions of the tag lines, in output order. */
  function Tags(lines: seq<string>): (tags: seq<Version>)
    ensures |tags| <= |lines|
  {
    if lines == [] then []
    else (if IsTagLine(lines[0]) then [TagOf(lines[0])] else []) + Tags(lines[1..])
  }

  lemma {:induction false} TagsAppend(a: seq<string>, b: seq<string>)
    ensures Tags(a + b) == Tags(a) + Tags(b)
    decreases |a|
  {
    if a != [] {
      assert (a + b)[0] == a[0] && (a + b)[1..] == a[1..] + b;
      TagsAppend(a[1..], b);
    } else {
      assert a + b == b;
    }
  }

  /** A version is listed exactly when some tag line names it. */
  lemma {:induction false} TagsMembership(lines: seq<string>, v: Version)
    ensures v in Tags(lines) <==> exists k | 0 <= k < |lines| :: IsTagLine(lines[k]) && TagOf(lines[k]) == v
    decreases |lines|
  {
    if lines != [] {
      TagsMembership(lines[1..], v);
      if v in Tags(lines[1..]) {
        var k :| 0 <= k < |lines[1..]| && IsTagLine(lines[1..][k]) && TagOf(lines[1..][k]) == v;
        assert lines[k + 1] == lines[1..][k];
      }
      if exists k | 0 <= k < |lines| :: IsTagLine(lines[k]) && TagOf(lines[k]) == v {
        var k :| 0 <= k < |lines| && IsTagLine(lines[k]) && TagOf(lines[k]) == v;
        if k > 0 {
          assert lines[1..][k - 1] == lines[k];
        }
      }
    }
  }

  /** The text after the last `refs/tags/` ends the line and holds no further `refs/tags/`. */
  lemma TagTextAfterLastRef(line: string)
    requires Contains(line, TagsRef)
    ensures EndsWith(line, TagsRef + Last(Split(line, TagsRef)))
    ensures !Contains(Last(Split(line, TagsRef)), TagsRef)
  {
    SplitLast(line, TagsRef);
  }

  /** A line of `git ls-remote --tags` output: the object hash, a tab and the tag's ref. */
  function LsRemoteLine(hash: string, tag: string): string {
    hash + "\t" + TagsRef + tag
  }

  /** After a prefix without `r`, the ref is the only one and the text after it is the tag. */
  lemma TagTextOf(a: string, name: string)
    requires 'r' !in a && !Contains(name, TagsRef)
    ensures Contains(a + TagsRef + name, TagsRef)
    ensures Last(Split(a + TagsRef + name, TagsRef)) == name
  {
    SplitAtFirst(a, TagsRef, name);
    SplitLast(name, TagsRef);
    assert (a + TagsRef + name)[|a|..|a| + |TagsRef|] == TagsRef;
    assert OccursAt(a + TagsRef + name, TagsRef, |a|);
  }

  /**
    * A tag line names the version it was written for: a hash without `r` (a
    * hexadecimal one) followed by the ref of a tag that renders a version
    * yields that version.
    */
  lemma LsRemoteLineNamesTag(hash: string, ver: Version)
    requires 'r' !in hash && '^' !in hash
    requires NoDots(ver) && !StartsWith(ver.major, "v")
    requires '/' !in ver.major && '/' !in ver.minor && '/' !in ver.patch
    requires '^' !in ver.major && '^' !in ver.minor && '^' !in ver.patch
    ensures IsTagLine(LsRemoteLine(hash, Str(ver))) && TagOf(LsRemoteLine(hash, Str(ver))) == ver
  {
    var name := Str(ver);
    assert '/' !in name && '^' !in name;
    MissingCharNotContained(name, TagsRef, '/');
    TagTextOf(hash + "\t", name);
    var line := LsRemoteLine(hash, name);
    assert line == hash + "\t" + TagsRef + name;
    assert '^' !in line;
    MissingCharNotContained(line, Peeled, '^');
    StrThenParse(ver);
  }

  /** The peeled entry of an annotated tag is not listed. */
  lemma PeeledLineSkipped(hash: string, tag: string)
    ensures !IsTagLine(LsRemoteLine(hash, tag + Peeled))
  {
    var line := LsRemoteLine(hash, tag + Peeled);
    assert line == hash + "\t" + TagsRef + tag + Peeled;
    assert line[|line| - |Peeled|..] == Peeled;
    assert OccursAt(line, Peeled, |line| - |Peeled|);
  }

  // ---------------------------------------------------------------------------
  // Selecting the tags between two versions.

  /** The versions `v` of `tags` with `from < v <= to`, in order, for a given `<`. */
  function Between(tags: seq<Version>, from: Version, to: Version, lt: (Version, Version) -> bool): (r: seq<Version>)
    ensures |r| <= |tags|
  {
    if tags == [] then []
    else (if lt(from, tags[0]) && !lt(to, tags[0]) then [tags[0]] else []) + Between(tags[1..], from, to, lt)
  }

  /** Both endpoints must be listed, else nothing is selected. */
  function SelectWith(tags: seq<Version>, from: Version, to: Version, lt: (Version, Version) -> bool): seq<Version> {
    if from !in tags || to !in tags then [] else Between(tags, from, to, lt)
  }

  /** The tags `list_all_tags_for_remote_git_repo` returns, with the string-based `<`. */
  function SelectTags(tags: seq<Version>, from: Version, to: Version): seq<Version> {
    SelectWith(tags, from, to, Lt)
  }

  lemma {:induction false} BetweenAppend(a: seq<Version>, b: seq<Version>, from: Version, to: Version, lt: (Version, Version) -> bool)
    ensures Between(a + b, from, to, lt) == Between(a, from, to, lt) + Between(b, from, to, lt)
    decreases |a|
  {
    if a != [] {
      assert (a + b)[0] == a[0] && (a + b)[1..] == a[1..] + b;
      BetweenAppend(a[1..], b, from, to, lt);
    } else {
      assert a + b == b;
    }
  }

  lemma {:induction false} BetweenMembership(tags: seq<Version>, from: Version, to: Version, lt: (Version, Version) -> bool, v: Version)
    ensures v in Between(tags, from, to, lt) <==> v in tags && lt(from, v) && !lt(to, v)
    decreases |tags|
  {
    if tags != [] {
      BetweenMembership(tags[1..], from, to, lt, v);
      assert tags == [tags[0]] + tags[1..];
    }
  }

  /**
    * A version is selected exactly when both endpoints are listed, the version
    * is listed, and it lies in `(from, to]`; the selection keeps the tags'
    * order (it distributes over concatenation of the listed tags).
    */
  lemma SelectTagsMembership(tags: seq<Version>, from: Version, to: Version, v: Version)
    ensures v in SelectTags(tags, from, to) <==>
      from in tags && to in tags && v in tags && Lt(from, v) && Ge(to, v)
  {
    BetweenMembership(tags, from, to, Lt, v);
  }

  /** Selection keeps the order of the listed tags: it is a filter over a concatenation. */
  lemma SelectTagsKeepsOrder(a: seq<Version>, b: seq<Version>, from: Version, to: Version)
    requires from in a + b && to in a + b
    ensures SelectTags(a + b, from, to) == Between(a, from, to, Lt) + Between(b, from, to, Lt)
  {
    BetweenAppend(a, b, from, to, Lt);
  }

  /** The lower endpoint is never selected; the upper one is exactly when it is above the lower one. */
  lemma SelectTagsEndpoints(tags: seq<Version>, from: Version, to: Version)
    requires from in tags && to in tags
    ensures from !in SelectTags(tags, from, to)
    ensures to in SelectTags(tags, from, to) <==> Lt(from, to)
  {
    SelectTagsMembership(tags, from, to, from);
    SelectTagsMembership(tags, from, to, to);
    LtIrreflexive(from);
    LtIrreflexive(to);
  }

  /** An empty or reversed range selects nothing. */
  lemma SelectTagsEmptyRange(tags: seq<Version>, from: Version, to: Version)
    requires !Lt(from, to)
    ensures SelectTags(tags, from, to) == []
  {
    if SelectTags(tags, from, to) != [] {
      var v := SelectTags(tags, from, to)[0];
      SelectTagsMembership(tags, from, to, v);
      ReflectedLe(v, to);
      if v != to {
        LtTransitive(from, v, to);
      }
      assert false;
    }
  }

  // ---------------------------------------------------------------------------
  // The string order misplaces multi-digit components.

  /**
    * With components compared as strings, `6.6.4` lies in the range
    * `(6.6.32, 6.6.44]`: `"32" < "4"` and `"4" < "44"`. The selection lists it
    * although it is numerically below the lower endpoint.
    */
  lemma LexicalRangeAdmitsEarlierPatch()
    ensures var from, to := Version("6", "6", "32"), Version("6", "6", "44");
      Version("6", "6", "4") in SelectTags([from, Version("6", "6", "4"), to], from, to)
  {
    var from, v, to := Version("6", "6", "32"), Version("6", "6", "4"), Version("6", "6", "44");
    assert StrLt("32", "4");
    assert StrLt("4", "44");
    LtIrreflexive(to);
    assert !StrLt("44", "4");
    SelectTagsMembership([from, v, to], from, to, v);
  }

  /** The number a component denotes, or -1 when it is not a decimal numeral (as for the `-1` sentinel). */
  function FieldValue(field: string): (n: int)
    ensures n >= -1
  {
    if IsNumeral(field) then NumeralValue(field) as int else -1
  }

  /** Lexicographic order on integer triples. */
  predicate TripleLt(a: (int, int, int), b: (int, int, int)) {
    a.0 < b.0 || (a.0 == b.0 && (a.1 < b.1 || (a.1 == b.1 && a.2 < b.2)))
  }

  function Key(v: Version): (int, int, int) {
    (FieldValue(v.major), FieldValue(v.minor), FieldValue(v.patch))
  }

  /** The evidently intended `<`: the components compared as numbers. */
  predicate NumLt(a: Version, b: Version) {
    TripleLt(Key(a), Key(b))
  }

  /** The selection with the numeric order. */
  function SelectTagsFixed(tags: seq<Version>, from: Version, to: Version): seq<Version> {
    SelectWith(tags, from, to, NumLt)
  }

  /** The version `x.y.z` as `str` renders it from numbers. */
  function Of(x: nat, y: nat, z: nat): Version {
    Version(NatToString(x), NatToString(y), NatToString(z))
  }

  lemma KeyOf(x: nat, y: nat, z: nat)
    ensures Key(Of(x, y, z)) == (x, y, z)
  {
    NatToStringRoundTrip(x);
    NatToStringRoundTrip(y);
    NatToStringRoundTrip(z);
  }

  /**
    * With the numeric order, a numbered version is selected exactly when both
    * endpoints are listed, it is listed, and its numbers lie in the range.
    */
  lemma SelectTagsFixedMembership(tags: seq<Version>, f: (nat, nat, nat), t: (nat, nat, nat), v: (nat, nat, nat))
    ensures var from, to, ver := Of(f.0, f.1, f.2), Of(t.0, t.1, t.2), Of(v.0, v.1, v.2);
      ver in SelectTagsFixed(tags, from, to) <==>
        from in tags && to in tags && ver in tags && TripleLt(f, v) && !TripleLt(t, v)
  {
    KeyOf(f.0, f.1, f.2);
    KeyOf(t.0, t.1, t.2);
    KeyOf(v.0, v.1, v.2);
    BetweenMembership(tags, Of(f.0, f.1, f.2), Of(t.0, t.1, t.2), NumLt, Of(v.0, v.1, v.2));
  }

  /** With the numeric order, `6.6.4` is not selected for `(6.6.32, 6.6.44]`. */
  lemma NumericRangeExcludesEarlierPatch()
    ensures Of(6, 6, 4) !in SelectTagsFixed([Of(6, 6, 32), Of(6, 6, 4), Of(6, 6, 44)], Of(6, 6, 32), Of(6, 6, 44))
  {
    SelectTagsFixedMembership([Of(6, 6, 32), Of(6, 6, 4), Of(6, 6, 44)], (6, 6, 32), (6, 6, 44), (6, 6, 4));
  }

  // ---------------------------------------------------------------------------
  // CVE links.

  /** The text of a title before its first `:`. */
  function CveId(title: string): string {
    Split(title, ":")[0]
  }

  predicate IsCveId(id: string) {
    StartsWith(id, "CVE")
  }

  /** The changelog link of a CVE. */
  function Link(id: string): string {
    "[" + id + "](https://nvd.nist.gov/vuln/detail/" + id + ")"
  }

  /** The links of the CVE titles among `titles`, in feed order. */
  function Links(titles: seq<string>): (links: seq<string>)
    ensures |links| <= |titles|
  {
    if titles == [] then []
    else
      var id := CveId(Last(titles));
      Links(titles[..|titles| - 1]) + (if IsCveId(id) then [Link(id)] else [])
  }

  /** The announcement feed queried for the CVEs fixed in a tag. */
  function FeedUrl(tag: Version): string {
    "https://lore.kernel.org/linux-cve-announce/?q=%22fixed+in+" + Str(tag) + "%22&x=A"
  }

  /** The links for all tags, tag after tag, given the titles the feed lists for each query. */
  function AllLinks(tags: seq<Version>, feed: string -> seq<string>): seq<string> {
    if tags == [] then [] else AllLinks(tags[..|tags| - 1], feed) + Links(feed(FeedUrl(Last(tags))))
  }

  /** The identifier is the title's prefix up to, and not including, its first `:`. */
  lemma CveIdBeforeColon(title: string)
    ensures ':' !in CveId(title) && StartsWith(title, CveId(title))
    ensures ':' in title ==> StartsWith(title, CveId(title) + ":")
    ensures ':' !in title ==> CveId(title) == title
  {
    var parts := Split(title, ":");
    SplitFirstIsPrefix(title, ":");
    SplitPiecesAvoidSep(title, ":");
    ContainsChar(parts[0], ':');
    SplitWhenContains(title, ":");
    ContainsChar(title, ':');
    JoinSplit(title, ":");
    if |parts| > 1 {
      JoinCons(parts[0], parts[1..], ":");
      assert [parts[0]] + parts[1..] == parts;
      assert title == parts[0] + ":" + Join(parts[1..], ":");
      assert title[..|parts[0]| + 1] == parts[0] + ":";
    } else {
      assert title == parts[0];
    }
  }

  /** A title `id: text` with a colon-free `id` yields `id`. */
  lemma CveIdOf(id: string, text: string)
    requires ':' !in id
    ensures CveId(id + ":" + text) == id
  {
    SplitCharPrefix(id, ':', text);
  }

  lemma {:induction false} LinksAppend(a: seq<string>, b: seq<string>)
    ensures Links(a + b) == Links(a) + Links(b)
    decreases |b|
  {
    if b == [] {
      assert a + b == a;
    } else {
      assert (a + b)[..|a + b| - 1] == a + b[..|b| - 1];
      LinksAppend(a, b[..|b| - 1]);
    }
  }

  /** A link is listed exactly when some title carries a CVE identifier it links. */
  lemma {:induction false} LinksMembership(titles: seq<string>, link: string)
    ensures link in Links(titles) <==>
      exists k | 0 <= k < |titles| :: IsCveId(CveId(titles[k])) && link == Link(CveId(titles[k]))
    decreases |titles|
  {
    if titles != [] {
      var init := titles[..|titles| - 1];
      LinksMembership(init, link);
      if link in Links(init) {
        var k :| 0 <= k < |init| && IsCveId(CveId(init[k])) && link == Link(CveId(init[k]));
        assert titles[k] == init[k];
      }
      if exists k | 0 <= k < |titles| :: IsCveId(CveId(titles[k])) && link == Link(CveId(titles[k])) {
        var k :| 0 <= k < |titles| && IsCveId(CveId(titles[k])) && link == Link(CveId(titles[k]));
        if k < |init| {
          assert init[k] == titles[k];
        }
      }
    }
  }

  /** Titles without a CVE identifier add no link. */
  lemma {:induction false} LinksSkipOthers(titles: seq<string>)
    requires forall k | 0 <= k < |titles| :: !IsCveId(CveId(titles[k]))
    ensures Links(titles) == []
    decreases |titles|
  {
    if titles != [] {
      LinksSkipOthers(titles[..|titles| - 1]);
    }
  }

  /** Of a CVE announcement `CVE-…: subject` and a reply `Re: …`, only the announcement is linked. */
  lemma LinksOfAnnouncementAndReply(id: string, subject: string, text: string)
    requires ':' !in id && IsCveId(id)
    ensures Links([id + ":" + subject, "Re" + ":" + text]) == [Link(id)]
  {
    var titles := [id + ":" + subject, "Re" + ":" + text];
    CveIdOf(id, subject);
    CveIdOf("Re", text);
    assert titles[..1] == [titles[0]] && titles[..1][..0] == [];
  }

  /** Different tags query different feeds. */
  lemma FeedUrlInjective(a: Version, b: Version)
    requires NoDots(a) && NoDots(b) && !StartsWith(a.major, "v") && !StartsWith(b.major, "v")
    requires FeedUrl(a) == FeedUrl(b)
    ensures a == b
  {
    var prefix := "https://lore.kernel.org/linux-cve-announce/?q=%22fixed+in+";
    assert |Str(a)| == |Str(b)|;
    assert Str(a) == FeedUrl(a)[|prefix|..|prefix| + |Str(a)|];
    assert Str(b) == FeedUrl(b)[|prefix|..|prefix| + |Str(b)|];
    StrThenParse(a);
    StrThenParse(b);
  }

  /**
    * `fixed_linux_cves`: for every selected tag, in order, the links of the
    * CVE titles its feed lists, joined with `", "`. The tags are selected with
    * the numeric order.
    */
  method FixedLinuxCves(lsRemote: seq<string>, from: Version, to: Version, feed: string -> seq<string>)
    returns (changelog: string)
    ensures changelog == Join(AllLinks(SelectTagsFixed(Tags(lsRemote), from, to), feed), ", ")
  {
    var tags := SelectTagsFixed(Tags(lsRemote), from, to);
    var links: seq<string> := [];
    for i := 0 to |tags|
      invariant links == AllLinks(tags[..i], feed)
    {
      links := AppendLinks(links, feed(FeedUrl(tags[i])));
      assert tags[..i + 1][..i] == tags[..i];
    }
    assert tags[..|tags|] == tags;
    return Join(links, ", ");
  }

  /** The inner loop over the entries of one feed: appends the links of its CVE titles, in order. */
  method AppendLinks(links0: seq<string>, entries: seq<string>) returns (links: seq<string>)
    ensures links == links0 + Links(entries)
  {
    links := links0;
    for j := 0 to |entries|
      invariant links == links0 + Links(entries[..j])
    {
      var cve := Split(entries[j], ":")[0];
      assert entries[..j + 1][..j] == entries[..j];
      if !StartsWith(cve, "CVE") {
        continue;
      }
      AppendAssoc(links0, Links(entries[..j]), [Link(cve)]);
      links := links + [Link(cve)];
    }
    assert entries[..|entries|] == entries;
  }

}
