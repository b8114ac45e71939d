/**
  * The pinned-commit extractor of coreos-overlay-diff.py.
  *
  * `display_difference` scans the `git diff` of the overlay line by line. An
  * ebuild header line names the repository the following lines belong to; a
  * removed `CROS_WORKON_COMMIT=` line gives "their" pinned commit and the added
  * one "our" pinned commit. Once both are known the pair is compared in the
  * nested repository, by a call of `display_difference` that does not scan any
  * further. Inconsistent pin lines are reported in a global list of warnings
  * and skipped; three conditions abort the whole run: a pin line while no
  * repository is selected (before the first ebuild header, or after a
  * completed pin or a removal or addition warning, until the next header), a
  * pin line that is neither removed nor added, and a pin line without a
  * quoted value.
  *
  * `Step` and `Run` state the scan as a function of the lines seen; the class
  * `Comparator` holds the script's global state and runs the scan as a loop,
  * proved to agree with `Run`.
  */
module OverlayDiff {
  import opened Options
  import opened Text

  const HeaderPrefix := "diff --git "
  const EbuildSuffix := "ebuild"
  const PinMarker := "CROS_WORKON_COMMIT="

  /** Ebuild names whose source repository is called differently. */
  const RepoMap: map<string, string> :=
    map["coreos-init" := "init", "cros-devutils" := "dev-util", "gmerge" := "dev-util",
        "fero-client" := "fero", "actool" := "spec"]

  /** A `diff --git` header line of a file whose name ends in `ebuild`. */
  predicate IsEbuildHeader(line: string) {
    StartsWith(line, HeaderPrefix) && EndsWith(line, EbuildSuffix)
  }

  /** The file name at the end of a header line: the text after its last `/`. */
  function BaseName(line: string): string {
    Last(Split(line, "/"))
  }

  /** The repository name a header line gives before aliasing. */
  function RawRepoName(line: string): string {
    var pieces := Split(BaseName(line), "-");
    Join(pieces[..|pieces| - 1], "-")
  }

  /**
    * The file name holds no `/` and ends the line, right after a `/` when the
    * line has one; a line without `/` is its own file name.
    */
  lemma BaseNameAfterLastSlash(line: string)
    ensures '/' !in BaseName(line) && EndsWith(line, BaseName(line))
    ensures '/' in line ==> EndsWith(line, "/" + BaseName(line))
    ensures '/' !in line ==> BaseName(line) == line
  {
    SplitLast(line, "/");
    ContainsChar(line, '/');
    ContainsChar(BaseName(line), '/');
    if '/' !in line {
      SplitCharAbsent(line, '/');
    }
  }

  /**
    * The raw repository name is the file name up to its last `-`, which drops
    * the version and the extension, or "" when the file name has no `-`.
    */
  lemma RawRepoNameBeforeLastDash(line: string)
    ensures var b, r := BaseName(line), RawRepoName(line);
      && ('-' in b ==> StartsWith(b, r + "-") && '-' !in b[|r| + 1..])
      && ('-' !in b ==> r == "")
  {
    var b := BaseName(line);
    if '-' in b {
      NameBeforeLastDash(b);
    } else {
      SplitCharAbsent(b, '-');
    }
  }

  /** A name with a `-` is the pieces before its last `-`, joined back, then `-` and a dash-free tail. */
  lemma NameBeforeLastDash(b: string)
    requires '-' in b
    ensures var pieces := Split(b, "-");
      var r := Join(pieces[..|pieces| - 1], "-");
      StartsWith(b, r + "-") && '-' !in b[|r| + 1..]
  {
    var pieces := Split(b, "-");
    var prefix := pieces[..|pieces| - 1];
    var r := Join(prefix, "-");
    ContainsChar(b, '-');
    SplitWhenContains(b, "-");
    assert pieces == prefix + [Last(pieces)];
    JoinSplit(b, "-");
    JoinSnoc(prefix, Last(pieces), "-");
    assert b == (r + "-") + Last(pieces);
    assert b[..|r| + 1] == r + "-";
    assert b[|r| + 1..] == Last(pieces);
    SplitLast(b, "-");
    ContainsChar(Last(pieces), '-');
  }

  /** Replaces a name by its alias when the table has one. */
  function Alias(name: string): string {
    if name in RepoMap then RepoMap[name] else name
  }

  /** The repository a header line selects. */
  function RepoOf(line: string): string {
    Alias(RawRepoName(line))
  }

  /** The value between the first and the second `"` of a line (to the end when there is no second one). */
  function Quoted(line: string): Option<string> {
    var parts := Split(line, "\"");
    if |parts| < 2 then None else Some(parts[1])
  }

  /** The three string variables of the scan. */
  datatype Slots = Slots(repo: string, theirs: string, ours: string)

  const Cleared := Slots("", "", "")

  /** A completed pin change: the nested repository and the two pinned commits. */
  datatype Pin = Pin(repo: string, theirs: string, ours: string)

  /** A recoverable inconsistency, with the values the warning message reports. */
  datatype Warning =
    | PendingAtHeader(repo: string, theirs: string, ours: string)
    | UnexpectedRemoval(repo: string, theirs: string, ours: string, line: string)
    | UnexpectedAddition(repo: string, theirs: string, ours: string, line: string)

  /** A condition that aborts the run. */
  datatype Fatal =
    | NoRepoSeen(line: string)
    | UnexpectedLine(line: string)
    | NoQuotedValue(line: string)

  /** Where the scan stands: its variables, what it has emitted, and whether it aborted. */
  datatype Outcome = Outcome(slots: Slots, pins: seq<Pin>, warnings: seq<Warning>, fatal: Option<Fatal>)

  /** Emits the pin and clears the slots once both commits are known. */
  function Complete(s: Slots, w: seq<Warning>): Outcome {
    if s.theirs != "" && s.ours != "" then Outcome(Cleared, [Pin(s.repo, s.theirs, s.ours)], w, None)
    else Outcome(s, [], w, None)
  }

  /** The effect of one diff line on the slots, in the order the script tests it. */
  function Step(s: Slots, line: string): Outcome {
    var w1 :=
      if IsEbuildHeader(line) && (s.theirs != "" || s.ours != "") then [PendingAtHeader(s.repo, s.theirs, s.ours)]
      else [];
    var s1 := if IsEbuildHeader(line) then Slots(RepoOf(line), "", "") else s;
    if !Contains(line, PinMarker) then Outcome(s1, [], w1, None)
    else if s1.repo == "" then Outcome(s1, [], w1, Some(NoRepoSeen(line)))
    else if !StartsWith(line, "-") && !StartsWith(line, "+") then Outcome(s1, [], w1, Some(UnexpectedLine(line)))
    else if StartsWith(line, "-") then
      if s1.theirs != "" || s1.ours != "" then
        Outcome(Cleared, [], w1 + [UnexpectedRemoval(s1.repo, s1.theirs, s1.ours, line)], None)
      else if Quoted(line).None? then Outcome(s1, [], w1, Some(NoQuotedValue(line)))
      else Complete(s1.(theirs := Quoted(line).value), w1)
    else
      if s1.theirs == "" || s1.ours != "" then
        Outcome(Cleared, [], w1 + [UnexpectedAddition(s1.repo, s1.theirs, s1.ours, line)], None)
      else if Quoted(line).None? then Outcome(s1, [], w1, Some(NoQuotedValue(line)))
      else Complete(s1.(ours := Quoted(line).value), w1)
  }

  const Start := Outcome(Cleared, [], [], None)

  /** Feeds the lines to `step` one after another from the start, stopping at the first abort. */
  function Scan(step: (Slots, string) -> Outcome, lines: seq<string>): Outcome
    decreases |lines|, 1
  {
    if lines == [] then Start else ScanLast(step, lines)
  }

  /** The scan of all lines but the last, extended by the last one unless it has aborted. */
  function ScanLast(step: (Slots, string) -> Outcome, lines: seq<string>): Outcome
    requires lines != []
    decreases |lines|, 0
  {
    var prev := Scan(step, lines[..|lines| - 1]);
    if prev.fatal.Some? then prev
    else
      var o := step(prev.slots, Last(lines));
      Outcome(o.slots, prev.pins + o.pins, prev.warnings + o.warnings, o.fatal)
  }

  /** The scan of a whole diff. */
  function Run(lines: seq<string>): Outcome {
    Scan(Step, lines)
  }

  // ---------------------------------------------------------------------------
  // The quoted value of a pin line.

  /** A line without `"` has no quoted value (the script fails with an IndexError). */
  lemma QuotedNone(line: string)
    ensures Quoted(line).None? <==> '"' !in line
  {
    SplitWhenContains(line, "\"");
    ContainsChar(line, '"');
  }

  /** The quoted value is read back from a line that quotes it, closed or not. */
  lemma QuotedRoundTrip(a: string, q: string, rest: string)
    requires '"' !in a && '"' !in q
    ensures Quoted(a + "\"" + q + "\"" + rest) == Some(q)
    ensures Quoted(a + "\"" + q) == Some(q)
  {
    SplitCharPrefix(q, '"', rest);
    SplitCharPrefix(a, '"', q + "\"" + rest);
    assert a + "\"" + q + "\"" + rest == a + ['"'] + (q + "\"" + rest);
    SplitCharAbsent(q, '"');
    SplitCharPrefix(a, '"', q);
  }

  // ---------------------------------------------------------------------------
  // Properties of single steps.

  /** A line that is neither an ebuild header nor a pin line changes nothing. */
  lemma OtherLinesChangeNothing(s: Slots, line: string)
    requires !IsEbuildHeader(line) && !Contains(line, PinMarker)
    ensures Step(s, line) == Outcome(s, [], [], None)
  {
  }

  /**
    * An ebuild header selects the repository and clears both commits; it warns
    * exactly when one of them was still set.
    */
  lemma HeaderSelectsRepo(s: Slots, line: string)
    requires IsEbuildHeader(line) && !Contains(line, PinMarker)
    ensures Step(s, line).slots == Slots(RepoOf(line), "", "")
    ensures Step(s, line).pins == [] && Step(s, line).fatal == None
    ensures Step(s, line).warnings ==
      if s.theirs != "" || s.ours != "" then [PendingAtHeader(s.repo, s.theirs, s.ours)] else []
  {
  }

  /**
    * A pin line aborts when no repository is selected (before the first ebuild
    * header, or after a completed pin or a warning cleared it); failing that,
    * when it is neither a removal nor an addition.
    */
  lemma PinLineErrors(s: Slots, line: string)
    requires !IsEbuildHeader(line) && Contains(line, PinMarker)
    ensures s.repo == "" ==> Step(s, line).fatal == Some(NoRepoSeen(line))
    ensures s.repo != "" && !StartsWith(line, "-") && !StartsWith(line, "+") ==>
      Step(s, line).fatal == Some(UnexpectedLine(line))
    ensures Step(s, line).fatal.None? ==> s.repo != "" && (StartsWith(line, "-") || StartsWith(line, "+"))
  {
  }

  /**
    * A removal line: with a commit already pending it warns once and clears all
    * three slots, before any quote is read; otherwise it aborts when the line
    * has no quote, and records the quoted value as "their" commit when it has.
    */
  lemma RemovalLine(s: Slots, line: string, q: string)
    requires !IsEbuildHeader(line) && Contains(line, PinMarker) && StartsWith(line, "-")
    requires s.repo != ""
    ensures s.theirs != "" || s.ours != "" ==>
      Step(s, line) == Outcome(Cleared, [], [UnexpectedRemoval(s.repo, s.theirs, s.ours, line)], None)
    ensures s.theirs == "" && s.ours == "" && Quoted(line).None? ==>
      Step(s, line) == Outcome(s, [], [], Some(NoQuotedValue(line)))
    ensures s.theirs == "" && s.ours == "" && Quoted(line) == Some(q) ==>
      Step(s, line) == Outcome(s.(theirs := q), [], [], None)
  {
  }

  /**
    * An addition line: without "their" commit, or with "our" commit already set,
    * it warns once and clears all three slots, before any quote is read.
    * Otherwise it aborts when the line has no quote; a non-empty quoted value
    * completes the pin, which is emitted, and clears the slots, while an empty
    * one leaves "their" commit pending and emits nothing.
    */
  lemma AdditionLine(s: Slots, line: string, q: string)
    requires !IsEbuildHeader(line) && Contains(line, PinMarker) && StartsWith(line, "+")
    requires s.repo != ""
    ensures s.theirs == "" || s.ours != "" ==>
      Step(s, line) == Outcome(Cleared, [], [UnexpectedAddition(s.repo, s.theirs, s.ours, line)], None)
    ensures s.theirs != "" && s.ours == "" && Quoted(line).None? ==>
      Step(s, line) == Outcome(s, [], [], Some(NoQuotedValue(line)))
    ensures s.theirs != "" && s.ours == "" && Quoted(line) == Some(q) && q != "" ==>
      Step(s, line) == Outcome(Cleared, [Pin(s.repo, s.theirs, q)], [], None)
    ensures s.theirs != "" && s.ours == "" && Quoted(line) == Some("") ==>
      Step(s, line) == Outcome(s, [], [], None)
  {
    assert !StartsWith(line, "-");
  }

  // ---------------------------------------------------------------------------
  // Properties of whole runs. Each is first shown for any step function with the
  // property at hand, so that the proof does not look into `Step`.

  lemma ScanSnoc(step: (Slots, string) -> Outcome, lines: seq<string>, line: string)
    ensures Scan(step, lines + [line]) ==
      var prev := Scan(step, lines);
      if prev.fatal.Some? then prev
      else
        var o := step(prev.slots, line);
        Outcome(o.slots, prev.pins + o.pins, prev.warnings + o.warnings, o.fatal)
  {
    assert (lines + [line])[..|lines|] == lines;
  }

  lemma {:induction false} ScanStopsAtFatal(step: (Slots, string) -> Outcome, lines: seq<string>, k: nat)
    requires k <= |lines| && Scan(step, lines[..k]).fatal.Some?
    ensures Scan(step, lines) == Scan(step, lines[..k])
    decreases |lines| - k
  {
    if k < |lines| {
      ScanSnoc(step, lines[..k], lines[k]);
      assert lines[..k] + [lines[k]] == lines[..k + 1];
      ScanStopsAtFatal(step, lines, k + 1);
    } else {
      assert lines[..k] == lines;
    }
  }

  /** Once the scan has aborted, later lines change nothing. */
  lemma RunStopsAtFatal(lines: seq<string>, k: nat)
    requires k <= |lines| && Run(lines[..k]).fatal.Some?
    ensures Run(lines) == Run(lines[..k])
  {
    ScanStopsAtFatal(Step, lines, k);
  }

  /**
    * Between lines "our" commit is always empty and "their" commit is only set
    * while a repository is selected: a pin never holds two removed or two added
    * commits.
    */
  predicate Consistent(s: Slots) {
    s.ours == "" && (s.theirs != "" ==> s.repo != "")
  }

  predicate IsComplete(p: Pin) {
    p.repo != "" && p.theirs != "" && p.ours != ""
  }

  ghost predicate KeepsConsistent(step: (Slots, string) -> Outcome) {
    forall s, line :: Consistent(s) ==>
      && (step(s, line).fatal.None? ==> Consistent(step(s, line).slots))
      && (forall k :: 0 <= k < |step(s, line).pins| ==> IsComplete(step(s, line).pins[k]))
  }

  lemma StepConsistent(s: Slots, line: string)
    requires Consistent(s)
    ensures Step(s, line).fatal.None? ==> Consistent(Step(s, line).slots)
    ensures forall k :: 0 <= k < |Step(s, line).pins| ==> IsComplete(Step(s, line).pins[k])
  {
  }

  lemma {:induction false} ScanConsistent(step: (Slots, string) -> Outcome, lines: seq<string>)
    requires KeepsConsistent(step)
    ensures Scan(step, lines).fatal.None? ==> Consistent(Scan(step, lines).slots)
    ensures forall k :: 0 <= k < |Scan(step, lines).pins| ==> IsComplete(Scan(step, lines).pins[k])
    decreases |lines|
  {
    if lines != [] {
      var init := lines[..|lines| - 1];
      ScanConsistent(step, init);
      ScanSnoc(step, init, Last(lines));
      assert init + [Last(lines)] == lines;
      var prev := Scan(step, init);
      if prev.fatal.None? {
        var o := step(prev.slots, Last(lines));
        var all := Scan(step, lines).pins;
        assert all == prev.pins + o.pins;
        forall k | 0 <= k < |all| ensures IsComplete(all[k]) {
          if k >= |prev.pins| {
            assert all[k] == o.pins[k - |prev.pins|];
          } else {
            assert all[k] == prev.pins[k];
          }
        }
      }
    }
  }

  /** Every emitted pin names its repository and both commits, and the slots stay consistent. */
  lemma RunConsistent(lines: seq<string>)
    ensures Run(lines).fatal.None? ==> Consistent(Run(lines).slots)
    ensures forall k :: 0 <= k < |Run(lines).pins| ==> IsComplete(Run(lines).pins[k])
  {
    forall s, line | Consistent(s)
      ensures Step(s, line).fatal.None? ==> Consistent(Step(s, line).slots)
      ensures forall k :: 0 <= k < |Step(s, line).pins| ==> IsComplete(Step(s, line).pins[k])
    {
      StepConsistent(s, line);
    }
    ScanConsistent(Step, lines);
  }

  /** Lines without the pin marker that start from cleared commits emit nothing and keep them cleared. */
  ghost predicate QuietOnOtherLines(step: (Slots, string) -> Outcome) {
    forall s: Slots, line: string :: s.theirs == "" && s.ours == "" && !Contains(line, PinMarker) ==>
      && step(s, line).pins == [] && step(s, line).warnings == [] && step(s, line).fatal == None
      && step(s, line).slots.theirs == "" && step(s, line).slots.ours == ""
  }

  lemma {:induction false} ScanWithoutPins(step: (Slots, string) -> Outcome, lines: seq<string>)
    requires QuietOnOtherLines(step)
    requires forall k :: 0 <= k < |lines| ==> !Contains(lines[k], PinMarker)
    ensures Scan(step, lines).pins == [] && Scan(step, lines).warnings == [] && Scan(step, lines).fatal == None
    ensures Scan(step, lines).slots.theirs == "" && Scan(step, lines).slots.ours == ""
    decreases |lines|
  {
    if lines != [] {
      var init := lines[..|lines| - 1];
      ScanWithoutPins(step, init);
      ScanSnoc(step, init, Last(lines));
      assert init + [Last(lines)] == lines;
    }
  }

  /**
    * A diff without pin lines emits no pin, adds no warning and does not abort:
    * no nested comparison is started.
    */
  lemma NoPinLinesNoEffect(lines: seq<string>)
    requires forall k :: 0 <= k < |lines| ==> !Contains(lines[k], PinMarker)
    ensures Run(lines).pins == [] && Run(lines).warnings == [] && Run(lines).fatal == None
  {
    ScanWithoutPins(Step, lines);
  }

  lemma {:induction false} ScanAppendOnly(step: (Slots, string) -> Outcome, lines: seq<string>, i: nat)
    requires i <= |lines|
    ensures Scan(step, lines[..i]).warnings <= Scan(step, lines).warnings
    ensures Scan(step, lines[..i]).pins <= Scan(step, lines).pins
    decreases |lines|
  {
    if i < |lines| {
      var init := lines[..|lines| - 1];
      ScanAppendOnly(step, init, i);
      assert init[..i] == lines[..i];
      ScanSnoc(step, init, Last(lines));
      assert init + [Last(lines)] == lines;
    } else {
      assert lines[..i] == lines;
    }
  }

  /**
    * The scan only ever appends: what a prefix of the diff has warned about and
    * emitted stays at the head of what the whole diff warns about and emits.
    */
  lemma RunAppendOnly(lines: seq<string>, i: nat)
    requires i <= |lines|
    ensures Run(lines[..i]).warnings <= Run(lines).warnings
    ensures Run(lines[..i]).pins <= Run(lines).pins
  {
    ScanAppendOnly(Step, lines, i);
  }

  lemma StepAtMostOne(s: Slots, line: string)
    ensures |Step(s, line).pins| + |Step(s, line).warnings| <= 1
  {
  }

  lemma {:induction false} ScanAtMostOnePerLine(step: (Slots, string) -> Outcome, lines: seq<string>)
    requires forall s, line :: |step(s, line).pins| + |step(s, line).warnings| <= 1
    ensures |Scan(step, lines).pins| + |Scan(step, lines).warnings| <= |lines|
    decreases |lines|
  {
    if lines != [] {
      var init := lines[..|lines| - 1];
      ScanAtMostOnePerLine(step, init);
      ScanSnoc(step, init, Last(lines));
      assert init + [Last(lines)] == lines;
    }
  }

  /** Each line adds at most one warning or one pin, never both. */
  lemma RunAtMostOnePerLine(lines: seq<string>)
    ensures |Run(lines).pins| + |Run(lines).warnings| <= |lines|
  {
    forall s, line ensures |Step(s, line).pins| + |Step(s, line).warnings| <= 1 {
      StepAtMostOne(s, line);
    }
    ScanAtMostOnePerLine(Step, lines);
  }

  // ---------------------------------------------------------------------------
  // Scenarios.

  /** A removed or added pin line as an ebuild's diff shows it: `-CROS_WORKON_COMMIT="<commit>"`. */
  function PinLine(sign: char, commit: string): string {
    [sign] + PinMarker + "\"" + commit + "\""
  }

  lemma PinLineParts(sign: char, commit: string)
    requires sign == '-' || sign == '+'
    requires '"' !in commit
    ensures !IsEbuildHeader(PinLine(sign, commit)) && Contains(PinLine(sign, commit), PinMarker)
    ensures StartsWith(PinLine(sign, commit), [sign]) && Quoted(PinLine(sign, commit)) == Some(commit)
  {
    var line := PinLine(sign, commit);
    assert line[1..1 + |PinMarker|] == PinMarker;
    assert OccursAt(line, PinMarker, 1);
    assert line[0] == sign && line[..1] == [sign];
    assert line[..|HeaderPrefix|][0] == sign;
    assert '"' !in [sign] + PinMarker;
    QuotedRoundTrip([sign] + PinMarker, commit, "");
    assert line == ([sign] + PinMarker) + "\"" + commit + "\"" + "";
  }

  /**
    * An ebuild header followed by the removed and the added pin line emits
    * exactly one pin: the header's repository with the two quoted commits.
    */
  lemma PairedPinLinesEmitOnePin(header: string, theirs: string, ours: string)
    requires IsEbuildHeader(header) && !Contains(header, PinMarker) && RepoOf(header) != ""
    requires theirs != "" && ours != "" && '"' !in theirs && '"' !in ours
    ensures Run([header, PinLine('-', theirs), PinLine('+', ours)]) ==
      Outcome(Cleared, [Pin(RepoOf(header), theirs, ours)], [], None)
  {
    var removal, addition := PinLine('-', theirs), PinLine('+', ours);
    PinLineParts('-', theirs);
    PinLineParts('+', ours);
    ScanSnoc(Step, [], header);
    ScanSnoc(Step, [header], removal);
    ScanSnoc(Step, [header, removal], addition);
    assert [] + [header] == [header];
    assert [header] + [removal] == [header, removal];
    assert [header, removal] + [addition] == [header, removal, addition];
    var repo := RepoOf(header);
    HeaderSelectsRepo(Cleared, header);
    RemovalLine(Slots(repo, "", ""), removal, theirs);
    AdditionLine(Slots(repo, theirs, ""), addition, ours);
  }

  /** An added pin line with no removed one before it warns and emits nothing. */
  lemma AdditionFirstWarns(header: string, ours: string)
    requires IsEbuildHeader(header) && !Contains(header, PinMarker) && RepoOf(header) != ""
    requires '"' !in ours
    ensures Run([header, PinLine('+', ours)]) ==
      Outcome(Cleared, [], [UnexpectedAddition(RepoOf(header), "", "", PinLine('+', ours))], None)
  {
    var addition := PinLine('+', ours);
    PinLineParts('+', ours);
    ScanSnoc(Step, [], header);
    ScanSnoc(Step, [header], addition);
    assert [] + [header] == [header];
    assert [header] + [addition] == [header, addition];
    HeaderSelectsRepo(Cleared, header);
    AdditionLine(Slots(RepoOf(header), "", ""), addition, ours);
  }

  /**
    * Two removed pin lines in a row: the second warns and clears everything, so
    * no pin is completed from the first.
    */
  lemma DoubleRemovalWarns(header: string, first: string, second: string)
    requires IsEbuildHeader(header) && !Contains(header, PinMarker) && RepoOf(header) != ""
    requires first != "" && '"' !in first && '"' !in second
    ensures Run([header, PinLine('-', first), PinLine('-', second)]) ==
      Outcome(Cleared, [], [UnexpectedRemoval(RepoOf(header), first, "", PinLine('-', second))], None)
  {
    var r1, r2 := PinLine('-', first), PinLine('-', second);
    PinLineParts('-', first);
    PinLineParts('-', second);
    ScanSnoc(Step, [], header);
    ScanSnoc(Step, [header], r1);
    ScanSnoc(Step, [header, r1], r2);
    assert [] + [header] == [header];
    assert [header] + [r1] == [header, r1];
    assert [header, r1] + [r2] == [header, r1, r2];
    var repo := RepoOf(header);
    HeaderSelectsRepo(Cleared, header);
    RemovalLine(Slots(repo, "", ""), r1, first);
    RemovalLine(Slots(repo, first, ""), r2, second);
  }

  /**
    * A second pin pair in the same ebuild aborts the run: the completed first
    * pair cleared the repository, and no header has selected it again.
    */
  lemma SecondPairAborts(header: string, theirs: string, ours: string, next: string)
    requires IsEbuildHeader(header) && !Contains(header, PinMarker) && RepoOf(header) != ""
    requires theirs != "" && ours != "" && '"' !in theirs && '"' !in ours && '"' !in next
    ensures Run([header, PinLine('-', theirs), PinLine('+', ours), PinLine('-', next)]) ==
      Outcome(Cleared, [Pin(RepoOf(header), theirs, ours)], [], Some(NoRepoSeen(PinLine('-', next))))
  {
    var lines := [header, PinLine('-', theirs), PinLine('+', ours)];
    PairedPinLinesEmitOnePin(header, theirs, ours);
    PinLineParts('-', next);
    ScanSnoc(Step, lines, PinLine('-', next));
    assert lines + [PinLine('-', next)] == [header, PinLine('-', theirs), PinLine('+', ours), PinLine('-', next)];
    PinLineErrors(Cleared, PinLine('-', next));
  }

  /**
    * After two removals in a row, the warning has cleared the repository, so
    * the addition that follows aborts the run.
    */
  lemma AdditionAfterDoubleRemovalAborts(header: string, first: string, second: string, ours: string)
    requires IsEbuildHeader(header) && !Contains(header, PinMarker) && RepoOf(header) != ""
    requires first != "" && '"' !in first && '"' !in second && '"' !in ours
    ensures Run([header, PinLine('-', first), PinLine('-', second), PinLine('+', ours)]).fatal ==
      Some(NoRepoSeen(PinLine('+', ours)))
  {
    var lines := [header, PinLine('-', first), PinLine('-', second)];
    DoubleRemovalWarns(header, first, second);
    PinLineParts('+', ours);
    ScanSnoc(Step, lines, PinLine('+', ours));
    assert lines + [PinLine('+', ours)] == [header, PinLine('-', first), PinLine('-', second), PinLine('+', ours)];
    PinLineErrors(Cleared, PinLine('+', ours));
  }

  /** The file name after the last `/` of a line is what follows that `/`. */
  lemma BaseNameOf(dir: string, file: string)
    requires '/' !in file
    ensures BaseName(dir + "/" + file) == file
  {
    SplitCharSuffix(dir, '/', file);
  }

  /** A file `<name>-<version>` with a single-word version names the repository `<name>`. */
  lemma RawRepoNameOf(dir: string, name: string, version: string)
    requires '/' !in name && '/' !in version && '-' !in version
    ensures RawRepoName(dir + "/" + name + "-" + version) == name
  {
    var file := name + "-" + version;
    assert dir + "/" + name + "-" + version == dir + "/" + file;
    BaseNameOf(dir, file);
    SplitCharSuffix(name, '-', version);
    JoinSplit(name, "-");
  }

  const ExampleFile := "coreos-init-9999.ebuild"
  const ExampleHeader := HeaderPrefix + "a/sys-kernel/" + ExampleFile + " b/sys-kernel/" + ExampleFile

  lemma ExampleHeaderIsEbuildHeader()
    ensures IsEbuildHeader(ExampleHeader)
  {
    var rest := "a/sys-kernel/" + ExampleFile + " b/sys-kernel/" + ExampleFile;
    assert ExampleHeader == HeaderPrefix + rest;
    assert (HeaderPrefix + rest)[..|HeaderPrefix|] == HeaderPrefix;
    assert EndsWith(ExampleFile, EbuildSuffix);
    EndsWithAppend(HeaderPrefix + "a/sys-kernel/" + ExampleFile + " b/sys-kernel/", ExampleFile, EbuildSuffix);
  }

  lemma ExampleHeaderHasNoMarker()
    ensures !Contains(ExampleHeader, PinMarker)
  {
    assert 'C' !in ExampleFile && 'C' !in HeaderPrefix;
    assert 'C' !in ExampleHeader;
    MissingCharNotContained(ExampleHeader, PinMarker, 'C');
  }

  /** The header of `coreos-init-9999.ebuild` selects the repository `init`, through the alias table. */
  lemma ExampleHeaderSelectsInit()
    ensures IsEbuildHeader(ExampleHeader) && !Contains(ExampleHeader, PinMarker)
    ensures RawRepoName(ExampleHeader) == "coreos-init" && RepoOf(ExampleHeader) == "init"
  {
    ExampleHeaderIsEbuildHeader();
    ExampleHeaderHasNoMarker();
    var dir := HeaderPrefix + "a/sys-kernel/" + ExampleFile + " b/sys-kernel";
    assert ExampleHeader == dir + "/" + "coreos-init" + "-" + "9999.ebuild";
    RawRepoNameOf(dir, "coreos-init", "9999.ebuild");
  }

  /**
    * The end-to-end example: the coreos-init header, `-CROS_WORKON_COMMIT="abc123"`
    * and `+CROS_WORKON_COMMIT="def456"` emit the one pin (init, abc123, def456).
    */
  lemma ExampleEmitsInitPin()
    ensures Run([ExampleHeader, PinLine('-', "abc123"), PinLine('+', "def456")]) ==
      Outcome(Cleared, [Pin("init", "abc123", "def456")], [], None)
  {
    ExampleHeaderSelectsInit();
    PairedPinLinesEmitOnePin(ExampleHeader, "abc123", "def456");
  }

  // ---------------------------------------------------------------------------
  // The comparison driver.

  /**
    * One comparison the script displays (its diff and the two commit logs) for
    * a repository between two revisions; `scanned` says whether its diff was
    * searched for pin changes.
    */
  datatype Comparison = Comparison(theirs: string, ours: string, name: string, scanned: bool)

  /** The nested comparisons the pins of a scan start, in order, none of them scanned. */
  function Nested(pins: seq<Pin>): (cs: seq<Comparison>)
    ensures |cs| == |pins|
  {
    if pins == [] then []
    else Nested(pins[..|pins| - 1]) + [Comparison(Last(pins).theirs, Last(pins).ours, Last(pins).repo, false)]
  }

  /** Each pin starts the comparison of its repository between its two commits. */
  lemma {:induction false} NestedAt(pins: seq<Pin>, k: nat)
    requires k < |pins|
    ensures Nested(pins)[k] == Comparison(pins[k].theirs, pins[k].ours, pins[k].repo, false)
    decreases |pins|
  {
    if k < |pins| - 1 {
      NestedAt(pins[..|pins| - 1], k);
    }
  }

  lemma {:induction false} NestedConcat(a: seq<Pin>, b: seq<Pin>)
    ensures Nested(a + b) == Nested(a) + Nested(b)
    decreases |b|
  {
    if b == [] {
      assert a + b == a;
    } else {
      var init := b[..|b| - 1];
      assert a + b == (a + init) + [Last(b)];
      assert b == init + [Last(b)];
      NestedAppend(a + init, Last(b));
      NestedAppend(init, Last(b));
      NestedConcat(a, init);
    }
  }

  lemma NestedAppend(pins: seq<Pin>, p: Pin)
    ensures Nested(pins + [p]) == Nested(pins) + [Comparison(p.theirs, p.ours, p.repo, false)]
  {
    assert (pins + [p])[..|pins|] == pins;
  }

  /** How the scan grows by one line, in the terms the driver keeps. */
  lemma RunLine(seen: seq<string>, line: string, o: Outcome)
    requires Run(seen).fatal.None? && o == Step(Run(seen).slots, line)
    ensures Run(seen + [line]) == Outcome(o.slots, Run(seen).pins + o.pins, Run(seen).warnings + o.warnings, o.fatal)
    ensures Nested(Run(seen).pins + o.pins) == Nested(Run(seen).pins) + Nested(o.pins)
  {
    ScanSnoc(Step, seen, line);
    NestedConcat(Run(seen).pins, o.pins);
  }

  /**
    * The state the script keeps across calls of `display_difference`: the
    * warnings list and, standing for what it prints, the comparisons it has
    * displayed so far.
    */
  class Comparator {
    var warnings: seq<Warning>
    var comparisons: seq<Comparison>

    constructor ()
      ensures warnings == [] && comparisons == []
    {
      warnings := [];
      comparisons := [];
    }

    /**
      * Displays the comparison of `name` from `fromTheirs` to `toOurs`; when
      * `recurse` holds, also scans its `diff` for pin changes, displaying the
      * comparisons they start without scanning those in turn.
      */
    method DisplayDifference(fromTheirs: string, toOurs: string, name: string, recurse: bool, diff: seq<string>)
      returns (fatal: Option<Fatal>)
      modifies this
      decreases if recurse then 4 else 0
      ensures fatal == (if recurse then Run(diff).fatal else None)
      ensures warnings == old(warnings) + (if recurse then Run(diff).warnings else [])
      ensures comparisons ==
        old(comparisons) + [Comparison(fromTheirs, toOurs, name, recurse)] + (if recurse then Nested(Run(diff).pins) else [])
    {
      comparisons := comparisons + [Comparison(fromTheirs, toOurs, name, recurse)];
      fatal := None;
      if recurse {
        fatal := ScanDiff(diff);
      }
    }

    /**
      * The scanning loop over the lines of a diff. An abort returns the
      * condition and stops the scan.
      */
    method ScanDiff(diff: seq<string>) returns (fatal: Option<Fatal>)
      modifies this
      decreases 3
      ensures fatal == Run(diff).fatal
      ensures warnings == old(warnings) + Run(diff).warnings
      ensures comparisons == old(comparisons) + Nested(Run(diff).pins)
    {
      var theirs, ours, repo := "", "", "";
      var i := 0;
      while i < |diff|
        invariant 0 <= i <= |diff|
        invariant Run(diff[..i]).fatal.None? && Run(diff[..i]).slots == Slots(repo, theirs, ours)
        invariant warnings == old(warnings) + Run(diff[..i]).warnings
        invariant comparisons == old(comparisons) + Nested(Run(diff[..i]).pins)
      {
        assert diff[..i + 1] == diff[..i] + [diff[i]];
        repo, theirs, ours, fatal := ScanNext(repo, theirs, ours, diff[i], diff[..i], old(warnings), old(comparisons));
        if fatal.Some? {
          RunStopsAtFatal(diff, i + 1);
          return fatal;
        }
        i := i + 1;
      }
      assert diff[..i] == diff;
      return None;
    }

    /**
      * One turn of the scanning loop: after the lines `seen`, the warnings
      * and comparisons extend `w0` and `c0` by what the scan of `seen`
      * emitted, and the turn for `line` keeps it so.
      */
    method ScanNext(repo0: string, theirs0: string, ours0: string, line: string,
                    ghost seen: seq<string>, ghost w0: seq<Warning>, ghost c0: seq<Comparison>)
      returns (repo: string, theirs: string, ours: string, fatal: Option<Fatal>)
      modifies this
      decreases 2
      requires Run(seen).fatal.None? && Run(seen).slots == Slots(repo0, theirs0, ours0)
      requires warnings == w0 + Run(seen).warnings && comparisons == c0 + Nested(Run(seen).pins)
      ensures Run(seen + [line]).slots == Slots(repo, theirs, ours) && Run(seen + [line]).fatal == fatal
      ensures warnings == w0 + Run(seen + [line]).warnings
      ensures comparisons == c0 + Nested(Run(seen + [line]).pins)
    {
      ghost var o := Step(Slots(repo0, theirs0, ours0), line);
      RunLine(seen, line, o);
      repo, theirs, ours, fatal := ScanLine(repo0, theirs0, ours0, line);
      AppendAssoc(w0, Run(seen).warnings, o.warnings);
      AppendAssoc(c0, Nested(Run(seen).pins), Nested(o.pins));
    }

    /**
      * The body of the scanning loop for one line: updates the three variables
      * and the warnings, displays the comparison of a pin the line completes,
      * and returns the abort the line causes, if any.
      */
    method ScanLine(repo0: string, theirs0: string, ours0: string, line: string)
      returns (repo: string, theirs: string, ours: string, fatal: Option<Fatal>)
      modifies this
      decreases 1
      ensures var o := Step(Slots(repo0, theirs0, ours0), line);
        Slots(repo, theirs, ours) == o.slots && fatal == o.fatal &&
        warnings == old(warnings) + o.warnings && comparisons == old(comparisons) + Nested(o.pins)
    {
      repo, theirs, ours := repo0, theirs0, ours0;
      fatal := None;
      if StartsWith(line, HeaderPrefix) && EndsWith(line, EbuildSuffix) {
        if theirs != "" || ours != "" {
          warnings := warnings + [PendingAtHeader(repo, theirs, ours)];
          theirs, ours := "", "";
        }
        repo := RawRepoName(line);
        if repo in RepoMap {
          repo := RepoMap[repo];
        }
      }
      if Contains(line, PinMarker) {
        if repo == "" {
          return repo, theirs, ours, Some(NoRepoSeen(line));
        }
        var isTheirs := StartsWith(line, "-");
        var isOurs := StartsWith(line, "+");
        if !isTheirs && !isOurs {
          return repo, theirs, ours, Some(UnexpectedLine(line));
        }
        if isTheirs {
          if theirs != "" || ours != "" {
            warnings := warnings + [UnexpectedRemoval(repo, theirs, ours, line)];
            return "", "", "", None;
          }
          var parts := Split(line, "\"");
          if |parts| < 2 {
            return repo, theirs, ours, Some(NoQuotedValue(line));
          }
          theirs := parts[1];
        }
        if isOurs {
          if theirs == "" || ours != "" {
            warnings := warnings + [UnexpectedAddition(repo, theirs, ours, line)];
            return "", "", "", None;
          }
          var parts := Split(line, "\"");
          if |parts| < 2 {
            return repo, theirs, ours, Some(NoQuotedValue(line));
          }
          ours := parts[1];
        }
        if theirs != "" && ours != "" {
          var _ := DisplayDifference(theirs, ours, repo, false, []);
          repo, theirs, ours := "", "", "";
        }
      }
    }
  }

  /**
    * The script's entry point: compares the `coreos-overlay` checkout between the
    * two revisions, scanning its diff, and returns the warnings it gathered,
    * which the script prints only when the run was not aborted (`fatal == None`).
    * Only that first comparison is scanned: each later one is the comparison of
    * a completed pin, in the order the diff completes them, and is displayed
    * without looking into its own diff.
    */
  method CompareOverlay(theirs: string, ours: string, diff: seq<string>)
    returns (comparisons: seq<Comparison>, warnings: seq<Warning>, fatal: Option<Fatal>)
    ensures fatal == Run(diff).fatal && warnings == Run(diff).warnings
    ensures |comparisons| == |Run(diff).pins| + 1
    ensures comparisons[0] == Comparison(theirs, ours, "coreos-overlay", true)
    ensures forall k :: 0 < k < |comparisons| ==>
      var p := Run(diff).pins[k - 1];
      comparisons[k] == Comparison(p.theirs, p.ours, p.repo, false) &&
      comparisons[k].name != "" && comparisons[k].theirs != "" && comparisons[k].ours != ""
  {
    var c := new Comparator();
    fatal := c.DisplayDifference(theirs, ours, "coreos-overlay", true, diff);
    comparisons, warnings := c.comparisons, c.warnings;
    var pins := Run(diff).pins;
    RunConsistent(diff);
    forall k | 0 < k < |comparisons|
      ensures comparisons[k] == Comparison(pins[k - 1].theirs, pins[k - 1].ours, pins[k - 1].repo, false)
    {
      NestedAt(pins, k - 1);
    }
  }
}
