/**
  * Pruning old tags: the tags older than a cutoff are picked from the
  * `for-each-ref` listing, turned into deleting refspecs, and pushed in chunks.
  */
module PruneTags {
  import opened Options
  import opened Text

  // ---------------------------------------------------------------------------
  // Chunks.

  /** The default number of refspecs pushed at once. */
  const ChunkLength := 100

  /** `delete_tag_chunks`: consecutive slices of `n` items, the last one possibly shorter. */
  function Chunks<T>(xs: seq<T>, n: nat): seq<seq<T>>
    requires n > 0
    decreases |xs|
  {
    if xs == [] then []
    else if |xs| <= n then [xs]
    else [xs[..n]] + Chunks(xs[n..], n)
  }

  function Flatten<T>(xss: seq<seq<T>>): seq<T> {
    if xss == [] then [] else xss[0] + Flatten(xss[1..])
  }

  /** The chunks, concatenated, give back the list. */
  lemma {:induction false} ChunksFlatten<T>(xs: seq<T>, n: nat)
    requires n > 0
    ensures Flatten(Chunks(xs, n)) == xs
    decreases |xs|
  {
    if xs == [] {
    } else if |xs| <= n {
      assert Flatten(Chunks(xs, n)) == xs + Flatten([]);
    } else {
      ChunksFlatten(xs[n..], n);
      assert ([xs[..n]] + Chunks(xs[n..], n))[1..] == Chunks(xs[n..], n);
      assert xs[..n] + xs[n..] == xs;
    }
  }

  /** Every chunk is non-empty and at most `n` long; all but the last are exactly `n` long. */
  lemma {:induction false} ChunksSizes<T>(xs: seq<T>, n: nat)
    requires n > 0
    ensures forall k | 0 <= k < |Chunks(xs, n)| :: 0 < |Chunks(xs, n)[k]| <= n
    ensures forall k | 0 <= k < |Chunks(xs, n)| - 1 :: |Chunks(xs, n)[k]| == n
    decreases |xs|
  {
    if |xs| > n {
      ChunksSizes(xs[n..], n);
      var cs := Chunks(xs, n);
      assert forall k | 1 <= k < |cs| :: cs[k] == Chunks(xs[n..], n)[k - 1];
    }
  }

  /** There are `ceil(|xs| / n)` chunks: enough to hold the list, and one fewer would not be. */
  lemma {:induction false} ChunksCount<T>(xs: seq<T>, n: nat)
    requires n > 0
    ensures |Chunks(xs, n)| * n >= |xs|
    ensures (|Chunks(xs, n)| - 1) * n < |xs| || xs == []
    ensures xs == [] <==> Chunks(xs, n) == []
    decreases |xs|
  {
    if |xs| > n {
      ChunksCount(xs[n..], n);
      var c := |Chunks(xs[n..], n)|;
      assert |Chunks(xs, n)| == c + 1;
      assert (c + 1) * n == c * n + n;
      assert c * n == (c - 1) * n + n;
    }
  }

  // ---------------------------------------------------------------------------
  // Old tags.

  /** The default age, in days, above which a tag is pruned. */
  const DefaultDays := 15

  /** The time `day` days before `now`, in seconds. */
  function Cutoff(now: int, day: int): int {
    now - 60 * 60 * 24 * day
  }

  /**
    * A listing line `name timestamp zone`: exactly three whitespace-separated
    * tokens whose second is a number, or `None` (Python's `ValueError`, which
    * makes the line be skipped).
    */
  function ParseEntry(line: string): Option<(string, int)> {
    var tokens := Fields(line);
    if |tokens| != 3 then None
    else match ParseInt(tokens[1]) {
      case None => None
      case Some(time) => Some((tokens[0], time))
    }
  }

  /** A line the listing's `grep -v '^v[0-9]'` drops: a release tag such as `v3.0.1`. */
  predicate IsReleaseLine(line: string) {
    |line| >= 2 && line[0] == 'v' && IsDigit(line[1])
  }

  /** `get_old_tags` over the listing lines: the names of the entries older than the cutoff, in order. */
  function OldTagsIn(lines: seq<string>, cutoff: int): (tags: seq<string>)
    ensures |tags| <= |lines|
  {
    if lines == [] then []
    else
      var e := ParseEntry(lines[0]);
      (if !IsReleaseLine(lines[0]) && e.Some? && e.value.1 < cutoff then [e.value.0] else [])
      + OldTagsIn(lines[1..], cutoff)
  }

  /** The lines of the `for-each-ref` output, as `split(b'\n')` gives them. */
  function ListingLines(output: string): seq<string> {
    Split(output, "\n")
  }

  /** The old tags of the `for-each-ref` output, `day` days before `now`. */
  function OldTags(output: string, now: int, day: int): seq<string> {
    OldTagsIn(ListingLines(output), Cutoff(now, day))
  }

  /** A well-formed entry is read back from its rendering. */
  lemma ParseEntryOf(name: string, time: int, zone: string)
    requires |name| > 0 && NoSpace(name) && |zone| > 0 && NoSpace(zone)
    ensures ParseEntry(name + " " + IntToString(time) + " " + zone) == Some((name, time))
  {
    var digits := IntToString(time);
    var words := [name, digits, zone];
    assert words[1..] == [digits, zone] && words[2..] == [zone];
    assert Join([zone], " ") == zone;
    assert Join([digits, zone], " ") == digits + " " + zone;
    assert Join(words, " ") == name + " " + (digits + " " + zone);
    assert name + " " + (digits + " " + zone) == name + " " + digits + " " + zone;
    FieldsJoin(words);
    IntToStringRoundTrip(time);
  }

  lemma {:induction false} OldTagsAppend(a: seq<string>, b: seq<string>, cutoff: int)
    ensures OldTagsIn(a + b, cutoff) == OldTagsIn(a, cutoff) + OldTagsIn(b, cutoff)
    decreases |a|
  {
    if a != [] {
      assert (a + b)[0] == a[0] && (a + b)[1..] == a[1..] + b;
      OldTagsAppend(a[1..], b, cutoff);
    } else {
      assert a + b == b;
    }
  }

  predicate OldEntry(line: string, name: string, cutoff: int) {
    !IsReleaseLine(line) && ParseEntry(line).Some? && ParseEntry(line).value.0 == name && ParseEntry(line).value.1 < cutoff
  }

  /**
    * A name is listed exactly when some well-formed entry, not a release
    * line, carries it with a timestamp strictly below the cutoff; malformed
    * entries add nothing.
    */
  lemma {:induction false} OldTagsMembership(lines: seq<string>, cutoff: int, name: string)
    ensures name in OldTagsIn(lines, cutoff) <==> exists k | 0 <= k < |lines| :: OldEntry(lines[k], name, cutoff)
    decreases |lines|
  {
    if lines != [] {
      OldTagsMembership(lines[1..], cutoff, name);
      if name in OldTagsIn(lines[1..], cutoff) {
        var k :| 0 <= k < |lines[1..]| && OldEntry(lines[1..][k], name, cutoff);
        assert lines[k + 1] == lines[1..][k];
      }
      if exists k | 0 <= k < |lines| :: OldEntry(lines[k], name, cutoff) {
        var k :| 0 <= k < |lines| && OldEntry(lines[k], name, cutoff);
        if k > 0 {
          assert lines[1..][k - 1] == lines[k];
        }
      }
    }
  }

  /** A listing line, not a release line, naming `name` with a creation time more than `day` days before `now`. */
  predicate AgedEntry(line: string, name: string, now: int, day: int) {
    !IsReleaseLine(line) && ParseEntry(line).Some? &&
    ParseEntry(line).value.0 == name && now - ParseEntry(line).value.1 > 86400 * day
  }

  /**
    * `get_old_tags` keeps the tags older than `day` days: a name is kept
    * exactly when some entry that is not a release line carries it with a
    * timestamp more than `86400 * day` seconds before `now`.
    */
  lemma OldTagsByAge(output: string, now: int, day: int, name: string)
    ensures name in OldTags(output, now, day) <==>
      exists k | 0 <= k < |ListingLines(output)| :: AgedEntry(ListingLines(output)[k], name, now, day)
  {
    var lines := ListingLines(output);
    var cutoff := Cutoff(now, day);
    OldTagsMembership(lines, cutoff, name);
    forall k | 0 <= k < |lines|
      ensures OldEntry(lines[k], name, cutoff) <==> AgedEntry(lines[k], name, now, day)
    {
    }
  }

  /** Lines that do not parse as entries are skipped. */
  lemma {:induction false} MalformedSkipped(lines: seq<string>, cutoff: int)
    requires forall k | 0 <= k < |lines| :: ParseEntry(lines[k]).None?
    ensures OldTagsIn(lines, cutoff) == []
    decreases |lines|
  {
    if lines != [] {
      MalformedSkipped(lines[1..], cutoff);
    }
  }

  /** A later cutoff keeps every tag an earlier one keeps, and the others after them. */
  lemma {:induction false} CutoffMonotone(lines: seq<string>, earlier: int, later: int, name: string)
    requires earlier <= later && name in OldTagsIn(lines, earlier)
    ensures name in OldTagsIn(lines, later)
  {
    OldTagsMembership(lines, earlier, name);
    OldTagsMembership(lines, later, name);
    var k :| 0 <= k < |lines| && OldEntry(lines[k], name, earlier);
    assert OldEntry(lines[k], name, later);
  }

  /** Every listed name is a single non-empty token. */
  lemma {:induction false} OldTagsAreTokens(lines: seq<string>, cutoff: int)
    ensures forall k | 0 <= k < |OldTagsIn(lines, cutoff)| ::
      |OldTagsIn(lines, cutoff)[k]| > 0 && NoSpace(OldTagsIn(lines, cutoff)[k])
    decreases |lines|
  {
    if lines != [] {
      OldTagsAreTokens(lines[1..], cutoff);
      var tags := OldTagsIn(lines, cutoff);
      var rest := OldTagsIn(lines[1..], cutoff);
      var e := ParseEntry(lines[0]);
      if !IsReleaseLine(lines[0]) && e.Some? && e.value.1 < cutoff {
        assert tags == [e.value.0] + rest;
        assert |e.value.0| > 0 && NoSpace(e.value.0);
        assert forall k | 1 <= k < |tags| :: tags[k] == rest[k - 1];
      }
    }
  }

  // ---------------------------------------------------------------------------
  // Refspecs and push commands.

  const DeletePrefix := ":refs/tags/"

  /** The refspec that deletes a tag on the remote. */
  function Refspec(tag: string): string {
    DeletePrefix + tag
  }

  function Refspecs(tags: seq<string>): (refs: seq<string>)
    ensures |refs| == |tags|
  {
    if tags == [] then [] else [Refspec(tags[0])] + Refspecs(tags[1..])
  }

  /** The tag a deleting refspec names. */
  function TagOfRefspec(ref: string): string
    requires StartsWith(ref, DeletePrefix)
  {
    ref[|DeletePrefix|..]
  }

  /** Each refspec is `:refs/tags/` followed by its tag, which reads back, in order. */
  lemma {:induction false} RefspecsInverse(tags: seq<string>)
    ensures forall k | 0 <= k < |tags| ::
      StartsWith(Refspecs(tags)[k], DeletePrefix) && TagOfRefspec(Refspecs(tags)[k]) == tags[k]
    decreases |tags|
  {
    if tags != [] {
      RefspecsInverse(tags[1..]);
      var refs := Refspecs(tags);
      assert refs[0][..|DeletePrefix|] == DeletePrefix;
      assert forall k | 1 <= k < |tags| :: refs[k] == Refspecs(tags[1..])[k - 1];
    }
  }

  /** The push command deleting one chunk of refspecs. */
  function PushCommand(chunk: seq<string>): string {
    "git push origin " + Join(chunk, " ")
  }

  function PushCommands(chunks: seq<seq<string>>): (cmds: seq<string>)
    ensures |cmds| == |chunks|
  {
    if chunks == [] then [] else [PushCommand(chunks[0])] + PushCommands(chunks[1..])
  }

  /**
    * The commands the script runs to delete the tags older than `DefaultDays`
    * days, `ChunkLength` refspecs at a time.
    */
  function PruneCommands(output: string, now: int): seq<string> {
    PushCommands(Chunks(Refspecs(OldTags(output, now, DefaultDays)), ChunkLength))
  }

  /** A push command splits back into the verb and its refspecs when they are single tokens. */
  lemma PushCommandFields(chunk: seq<string>)
    requires |chunk| > 0
    requires forall k | 0 <= k < |chunk| :: |chunk[k]| > 0 && NoSpace(chunk[k])
    ensures Fields(PushCommand(chunk)) == ["git", "push", "origin"] + chunk
  {
    var words := ["git", "push", "origin"] + chunk;
    assert words[3..] == chunk;
    JoinCons("git", words[1..], " ");
    assert [words[0]] + words[1..] == words;
    JoinCons("push", words[2..], " ");
    assert [words[1]] + words[2..] == words[1..];
    JoinCons("origin", words[3..], " ");
    assert [words[2]] + words[3..] == words[2..];
    assert Join(words, " ") == PushCommand(chunk);
    FieldsJoin(words);
  }

  lemma RefspecIsToken(tag: string)
    requires NoSpace(tag)
    ensures |Refspec(tag)| > 0 && NoSpace(Refspec(tag))
  {
    assert forall i | 0 <= i < |DeletePrefix| :: !IsSpace(DeletePrefix[i]);
    assert forall i | |DeletePrefix| <= i < |Refspec(tag)| :: Refspec(tag)[i] == tag[i - |DeletePrefix|];
  }

  lemma {:induction false} RefspecsAreTokens(tags: seq<string>)
    requires forall k | 0 <= k < |tags| :: NoSpace(tags[k])
    ensures forall k | 0 <= k < |tags| :: |Refspecs(tags)[k]| > 0 && NoSpace(Refspecs(tags)[k])
    decreases |tags|
  {
    if tags != [] {
      RefspecIsToken(tags[0]);
      RefspecsAreTokens(tags[1..]);
      var refs := Refspecs(tags);
      assert forall k | 1 <= k < |tags| :: refs[k] == Refspecs(tags[1..])[k - 1];
    }
  }

  /**
    * The whole pruning run: one command per chunk, each splitting at whitespace
    * into `git push origin` and its chunk's refspecs, and the chunks together
    * are the refspecs of the old tags, in order.
    */
  lemma PruneCommandsDeleteOldTags(output: string, now: int)
    ensures var refs := Refspecs(OldTags(output, now, DefaultDays));
      var chunks := Chunks(refs, ChunkLength);
      |PruneCommands(output, now)| == |chunks| &&
      |chunks| * ChunkLength >= |refs| && ((|chunks| - 1) * ChunkLength < |refs| || refs == []) &&
      Flatten(chunks) == refs &&
      forall k | 0 <= k < |chunks| :: Fields(PruneCommands(output, now)[k]) == ["git", "push", "origin"] + chunks[k]
  {
    var tags := OldTags(output, now, DefaultDays);
    var refs := Refspecs(tags);
    var chunks := Chunks(refs, ChunkLength);
    ChunksCount(refs, ChunkLength);
    ChunksFlatten(refs, ChunkLength);
    ChunksSizes(refs, ChunkLength);
    OldTagsAreTokens(ListingLines(output), Cutoff(now, DefaultDays));
    RefspecsAreTokens(tags);
    forall k | 0 <= k < |chunks|
      ensures Fields(PruneCommands(output, now)[k]) == ["git", "push", "origin"] + chunks[k]
    {
      PushCommandsAt(chunks, k);
      ChunkTokens(refs, k);
      PushCommandFields(chunks[k]);
    }
  }

  lemma {:induction false} PushCommandsAt(chunks: seq<seq<string>>, k: nat)
    requires k < |chunks|
    ensures PushCommands(chunks)[k] == PushCommand(chunks[k])
    decreases k
  {
    if k > 0 {
      PushCommandsAt(chunks[1..], k - 1);
    }
  }

  /** The items of each chunk are items of the list. */
  lemma {:induction false} ChunkItems<T>(xs: seq<T>, n: nat, k: nat)
    requires n > 0 && k < |Chunks(xs, n)|
    ensures forall i | 0 <= i < |Chunks(xs, n)[k]| :: Chunks(xs, n)[k][i] in xs
    decreases |xs|
  {
    if |xs| > n {
      if k > 0 {
        ChunkItems(xs[n..], n, k - 1);
        assert Chunks(xs, n)[k] == Chunks(xs[n..], n)[k - 1];
        forall i | 0 <= i < |Chunks(xs, n)[k]| ensures Chunks(xs, n)[k][i] in xs {
          assert Chunks(xs[n..], n)[k - 1][i] in xs[n..];
        }
      } else {
        forall i | 0 <= i < |Chunks(xs, n)[k]| ensures Chunks(xs, n)[k][i] in xs {
          assert xs[..n][i] == xs[i];
        }
      }
    }
  }

  lemma ChunkTokens(refs: seq<string>, k: nat)
    requires k < |Chunks(refs, ChunkLength)|
    requires forall j | 0 <= j < |refs| :: |refs[j]| > 0 && NoSpace(refs[j])
    ensures |Chunks(refs, ChunkLength)[k]| > 0
    ensures forall i | 0 <= i < |Chunks(refs, ChunkLength)[k]| ::
      |Chunks(refs, ChunkLength)[k][i]| > 0 && NoSpace(Chunks(refs, ChunkLength)[k][i])
  {
    ChunksSizes(refs, ChunkLength);
    ChunkItems(refs, ChunkLength, k);
  }
}
