// The deterministic classification of a change set: the high-risk scan, the
// de-duplicated category names, the lockfile-only exception, the tier with
// its strict precedence, and the summary sentence.
module Classifier {
  import opened Text
  import Glob
  import Lockfile
  import opened RuleSchema

  datatype HighHit = HighHit(file: string, category: string)

  datatype Tier = High | Low | Unknown

  /** The result record. */
  datatype Classification = Classification(
    changedFiles: seq<string>,
    tier: Tier,
    forcedHigh: bool,
    allLowSafe: bool,
    lockfileOnly: bool,
    matchedCategories: seq<string>,
    highHits: seq<HighHit>,
    summary: string)

  /** `regexes.some((r) => r.test(file))` */
  predicate AnyMatches(patterns: seq<string>, file: string) {
    exists k :: 0 <= k < |patterns| && Glob.GlobMatches(patterns[k], file)
  }

  // ---------------------------------------------------------------------
  // The high-risk scan

  /** The hits one file produces: one per matching category, in document order. */
  function HitsForFile(file: string, cats: seq<Category>): seq<HighHit> {
    if cats == [] then []
    else
      var last := cats[|cats| - 1];
      HitsForFile(file, cats[..|cats| - 1]) + (if AnyMatches(last.patterns, file) then [HighHit(file, last.name)] else [])
  }

  /** All hits, file by file. */
  function HighHits(files: seq<string>, cats: seq<Category>): seq<HighHit> {
    if files == [] then []
    else HighHits(files[..|files| - 1], cats) + HitsForFile(files[|files| - 1], cats)
  }

  /** The category name of each hit, in order. */
  function Names(hits: seq<HighHit>): (r: seq<string>)
    ensures |r| == |hits|
    ensures forall k :: 0 <= k < |hits| ==> r[k] == hits[k].category
  {
    if hits == [] then [] else Names(hits[..|hits| - 1]) + [hits[|hits| - 1].category]
  }

  /** The nested loops over files and categories, pushing into `categories` and `highHits`. */
  method ScanHighHits(files: seq<string>, cats: seq<Category>) returns (categories: seq<string>, hits: seq<HighHit>)
    ensures hits == HighHits(files, cats)
    ensures categories == Names(hits)
  {
    categories, hits := [], [];
    for i := 0 to |files|
      invariant hits == HighHits(files[..i], cats)
      invariant categories == Names(hits)
    {
      var file := files[i];
      ghost var before := hits;
      for j := 0 to |cats|
        invariant hits == before + HitsForFile(file, cats[..j])
        invariant categories == Names(hits)
      {
        var cat := cats[j];
        HitsForFileStep(file, cats, j);
        if AnyMatches(cat.patterns, file) {
          var h := HighHit(file, cat.name);
          NamesPush(hits, h);
          ScanPush(before, HitsForFile(file, cats[..j]), h);
          categories := categories + [cat.name];
          hits := hits + [h];
        } else {
          assert HitsForFile(file, cats[..j + 1]) == HitsForFile(file, cats[..j]) + [];
        }
      }
      HighHitsStep(files, i, cats);
    }
    assert files[..|files|] == files;
  }

  lemma HitsForFileStep(file: string, cats: seq<Category>, j: nat)
    requires j < |cats|
    ensures HitsForFile(file, cats[..j + 1]) ==
      HitsForFile(file, cats[..j]) + (if AnyMatches(cats[j].patterns, file) then [HighHit(file, cats[j].name)] else [])
  {
    assert cats[..j + 1][..j] == cats[..j];
  }

  lemma HighHitsStep(files: seq<string>, i: nat, cats: seq<Category>)
    requires i < |files|
    ensures HighHits(files[..i + 1], cats) == HighHits(files[..i], cats) + HitsForFile(files[i], cats[..|cats|])
  {
    assert files[..i + 1][..i] == files[..i];
    assert cats[..|cats|] == cats;
  }

  lemma ScanPush(before: seq<HighHit>, found: seq<HighHit>, h: HighHit)
    ensures before + found + [h] == before + (found + [h])
  {
  }

  lemma NamesPush(hits: seq<HighHit>, h: HighHit)
    ensures Names(hits + [h]) == Names(hits) + [h.category]
  {
    assert (hits + [h])[..|hits|] == hits;
  }

  lemma HitsForFileMembership(file: string, cats: seq<Category>, h: HighHit)
    ensures h in HitsForFile(file, cats) <==>
      h.file == file && exists j :: 0 <= j < |cats| && cats[j].name == h.category && AnyMatches(cats[j].patterns, file)
  {
    if h in HitsForFile(file, cats) {
      var j := HitsForFileSound(file, cats, h);
    }
    if h.file == file && exists j :: 0 <= j < |cats| && cats[j].name == h.category && AnyMatches(cats[j].patterns, file) {
      var j :| 0 <= j < |cats| && cats[j].name == h.category && AnyMatches(cats[j].patterns, file);
      HitsForFileComplete(file, cats, j);
    }
  }

  lemma {:induction false} HitsForFileSound(file: string, cats: seq<Category>, h: HighHit) returns (j: nat)
    requires h in HitsForFile(file, cats)
    ensures h.file == file && j < |cats| && cats[j].name == h.category && AnyMatches(cats[j].patterns, file)
  {
    var n := |cats| - 1;
    var init := cats[..n];
    if h in HitsForFile(file, init) {
      j := HitsForFileSound(file, init, h);
      assert init[j] == cats[j];
    } else {
      j := n;
    }
  }

  lemma {:induction false} HitsForFileComplete(file: string, cats: seq<Category>, j: nat)
    requires j < |cats| && AnyMatches(cats[j].patterns, file)
    ensures HighHit(file, cats[j].name) in HitsForFile(file, cats)
  {
    var n := |cats| - 1;
    var init := cats[..n];
    if j < n {
      assert init[j] == cats[j];
      HitsForFileComplete(file, init, j);
    }
  }

  /** A hit is recorded exactly for a changed file and a category one of whose patterns matches it. */
  lemma HitMembership(files: seq<string>, cats: seq<Category>, h: HighHit)
    ensures h in HighHits(files, cats) <==>
      h.file in files && exists j :: 0 <= j < |cats| && cats[j].name == h.category && AnyMatches(cats[j].patterns, h.file)
  {
    if h in HighHits(files, cats) {
      var i, j := HitSound(files, cats, h);
    }
    if h.file in files && exists j :: 0 <= j < |cats| && cats[j].name == h.category && AnyMatches(cats[j].patterns, h.file) {
      var j :| 0 <= j < |cats| && cats[j].name == h.category && AnyMatches(cats[j].patterns, h.file);
      var i :| 0 <= i < |files| && files[i] == h.file;
      HitComplete(files, cats, i, j);
    }
  }

  lemma {:induction false} HitSound(files: seq<string>, cats: seq<Category>, h: HighHit) returns (i: nat, j: nat)
    requires h in HighHits(files, cats)
    ensures i < |files| && files[i] == h.file
    ensures j < |cats| && cats[j].name == h.category && AnyMatches(cats[j].patterns, h.file)
  {
    var n := |files| - 1;
    var init := files[..n];
    assert HighHits(files, cats) == HighHits(init, cats) + HitsForFile(files[n], cats);
    if h in HighHits(init, cats) {
      i, j := HitSound(init, cats, h);
      assert init[i] == files[i];
    } else {
      j := HitsForFileSound(files[n], cats, h);
      i := n;
    }
  }

  lemma {:induction false} HitComplete(files: seq<string>, cats: seq<Category>, i: nat, j: nat)
    requires i < |files| && j < |cats| && AnyMatches(cats[j].patterns, files[i])
    ensures HighHit(files[i], cats[j].name) in HighHits(files, cats)
  {
    var n := |files| - 1;
    var init := files[..n];
    assert HighHits(files, cats) == HighHits(init, cats) + HitsForFile(files[n], cats);
    if i < n {
      assert init[i] == files[i];
      HitComplete(init, cats, i, j);
    } else {
      HitsForFileComplete(files[n], cats, j);
    }
  }

  /** Hits are grouped file by file: the scan of a longer list extends the scan of its prefix. */
  lemma {:induction false} HighHitsAppend(files: seq<string>, more: seq<string>, cats: seq<Category>)
    ensures HighHits(files + more, cats) == HighHits(files, cats) + HighHits(more, cats)
    decreases |more|
  {
    if more == [] {
      assert files + more == files;
    } else {
      var init, last := more[..|more| - 1], more[|more| - 1];
      var all := files + more;
      assert all[..|all| - 1] == files + init && all[|all| - 1] == last;
      assert HighHits(all, cats) == HighHits(files + init, cats) + HitsForFile(last, cats);
      assert HighHits(more, cats) == HighHits(init, cats) + HitsForFile(last, cats);
      HighHitsAppend(files, init, cats);
    }
  }

  /** A file has no more hits than there are categories, and every hit is for that file. */
  lemma {:induction false} HitsForFileBound(file: string, cats: seq<Category>)
    ensures |HitsForFile(file, cats)| <= |cats|
    ensures forall h :: h in HitsForFile(file, cats) ==> h.file == file
  {
    if cats != [] {
      HitsForFileBound(file, cats[..|cats| - 1]);
    }
  }

  /** One category on its own: one hit when one of its patterns matches, none otherwise. */
  lemma HitsForOneCategory(file: string, c: Category)
    ensures HitsForFile(file, [c]) == if AnyMatches(c.patterns, file) then [HighHit(file, c.name)] else []
  {
    assert [c][..0] == [];
  }

  /** A file's hits over a concatenation of category lists are the hits over each, in that order. */
  lemma {:induction false} HitsForFileAppend(file: string, a: seq<Category>, b: seq<Category>)
    ensures HitsForFile(file, a + b) == HitsForFile(file, a) + HitsForFile(file, b)
    decreases |b|
  {
    if b == [] {
      assert a + b == a;
    } else {
      var init, last := b[..|b| - 1], b[|b| - 1];
      var all := a + b;
      var tail := if AnyMatches(last.patterns, file) then [HighHit(file, last.name)] else [];
      assert all[..|all| - 1] == a + init && all[|all| - 1] == last;
      assert HitsForFile(file, all) == HitsForFile(file, a + init) + tail;
      assert HitsForFile(file, b) == HitsForFile(file, init) + tail;
      HitsForFileAppend(file, a, init);
    }
  }

  /** Each category contributes exactly one hit when it matches and none when it
      does not, at its own place in document order. */
  lemma HitsForFileAtCategory(file: string, a: seq<Category>, c: Category, b: seq<Category>)
    ensures HitsForFile(file, a + [c] + b) ==
      HitsForFile(file, a) + (if AnyMatches(c.patterns, file) then [HighHit(file, c.name)] else []) + HitsForFile(file, b)
  {
    HitsForFileAppend(file, a + [c], b);
    HitsForFileAppend(file, a, [c]);
    HitsForOneCategory(file, c);
  }

  // ---------------------------------------------------------------------
  // `[...new Set(categories)]`

  /** The elements of `xs` without repeats, each kept where it first appears. */
  function Dedup<T(==, !new)>(xs: seq<T>): (r: seq<T>)
    ensures forall x :: x in r <==> x in xs
    ensures forall a, b :: 0 <= a < b < |r| ==> r[a] != r[b]
  {
    if xs == [] then []
    else
      var r := Dedup(xs[..|xs| - 1]);
      var x := xs[|xs| - 1];
      assert xs == xs[..|xs| - 1] + [x];
      if x in r then r else r + [x]
  }

  /** The position where `x` first occurs in `xs`. */
  function FirstIndex<T(==, !new)>(xs: seq<T>, x: T): (k: nat)
    requires x in xs
    ensures k < |xs| && xs[k] == x && x !in xs[..k]
  {
    if xs[0] == x then 0
    else
      assert xs == [xs[0]] + xs[1..];
      var k := FirstIndex(xs[1..], x);
      assert xs[..k + 1] == [xs[0]] + xs[1..][..k];
      k + 1
  }

  lemma {:induction false} FirstIndexUnique<T(!new)>(xs: seq<T>, x: T, k: nat)
    requires k < |xs| && xs[k] == x && x !in xs[..k]
    ensures FirstIndex(xs, x) == k
  {
    if k > 0 {
      assert xs[0] == xs[..k][0];
      assert xs[1..][..k - 1] == xs[1..k];
      assert forall y :: y in xs[1..k] ==> y in xs[..k];
      FirstIndexUnique(xs[1..], x, k - 1);
    }
  }

  lemma FirstIndexExtend<T(!new)>(xs: seq<T>, y: T, x: T)
    requires x in xs
    ensures FirstIndex(xs + [y], x) == FirstIndex(xs, x)
  {
    var k := FirstIndex(xs, x);
    assert (xs + [y])[..k] == xs[..k];
    FirstIndexUnique(xs + [y], x, k);
  }

  /** First-seen order: of two kept names, the earlier one was seen first. */
  lemma {:induction false} DedupKeepsFirstSeenOrder<T(!new)>(xs: seq<T>, a: nat, b: nat)
    requires a < b < |Dedup(xs)|
    ensures FirstIndex(xs, Dedup(xs)[a]) < FirstIndex(xs, Dedup(xs)[b])
  {
    var init := xs[..|xs| - 1];
    var x := xs[|xs| - 1];
    var r := Dedup(init);
    assert xs == init + [x];
    var ya, yb := Dedup(xs)[a], Dedup(xs)[b];
    assert ya in init by {
      assert a < |r|;
      assert ya == r[a];
    }
    FirstIndexExtend(init, x, ya);
    if b < |r| {
      DedupKeepsFirstSeenOrder(init, a, b);
      assert yb == r[b];
      FirstIndexExtend(init, x, yb);
    } else {
      assert yb == x && x !in init;
      FirstIndexUnique(xs, x, |init|);
    }
  }

  // ---------------------------------------------------------------------
  // Lockfile exception, tier and summary

  /** `lockfileOnly`: some hit, and every hit is a lockfile whose manifest did not change. */
  predicate LockfileOnly(hits: seq<HighHit>, changed: seq<string>) {
    |hits| > 0 && forall k :: 0 <= k < |hits| ==> Lockfile.Downgradable(hits[k].file, changed)
  }

  /** `changedFiles.every((f) => lowMatchers.some((r) => r.test(f)))` */
  predicate AllMatchLow(files: seq<string>, low: seq<string>) {
    forall k :: 0 <= k < |files| ==> AnyMatches(low, files[k])
  }

  // The two longest sentences are written in pieces: the verifier does not unfold a
  // literal this long into its characters, which `SentencesDiffer` reads.
  const LockfileSummary: string := "Lockfile-only change " + "(no manifest modified); " + "downgraded from high-risk"
  const LowSummary: string := "Low risk by deterministic safe-file patterns"
  const UnknownSummary: string := "No deterministic high-risk hit; " + "LLM classification required"

  const ForcedPrefix: string := "High risk forced by deterministic rules ("

  function ForcedSummary(names: seq<string>): string {
    ForcedPrefix + Join(names, ", ") + ")"
  }

  /** The summary, by the same precedence as the tier. */
  function Summary(forced: bool, lockfileOnly: bool, lowSafe: bool, names: seq<string>): string {
    if forced then ForcedSummary(names)
    else if lockfileOnly then LockfileSummary
    else if lowSafe then LowSummary
    else UnknownSummary
  }

  /** The record the script builds from the scan. */
  function Resolve(files: seq<string>, rules: RuleSet, hits: seq<HighHit>, unique: seq<string>): Classification {
    var lockOnly := LockfileOnly(hits, files);
    var forced := |unique| > 0 && !lockOnly;
    var lowSafe := !forced && |files| > 0 && AllMatchLow(files, rules.lowRiskPatterns);
    Classification(
      files,
      if forced then High else if lowSafe then Low else Unknown,
      forced, lowSafe, lockOnly, unique, hits,
      Summary(forced, lockOnly, lowSafe, unique))
  }

  function ClassificationOf(files: seq<string>, rules: RuleSet): Classification {
    var hits := HighHits(files, rules.highRiskCategories);
    Resolve(files, rules, hits, Dedup(Names(hits)))
  }

  /** The classification, from the scan to the result record. */
  method Classify(files: seq<string>, rules: RuleSet) returns (result: Classification)
    ensures result == ClassificationOf(files, rules)
  {
    var categories, hits := ScanHighHits(files, rules.highRiskCategories);
    var unique := Dedup(categories);
    result := Resolve(files, rules, hits, unique);
  }

  // ---------------------------------------------------------------------
  // What the classification means

  lemma DedupEmpty<T(!new)>(xs: seq<T>)
    ensures |Dedup(xs)| == 0 <==> |xs| == 0
  {
    if |xs| > 0 {
      assert xs[0] in xs;
    }
  }

  /** Some changed file matches some high-risk category and is not excused by the lockfile exception. */
  ghost predicate UnexcusedMatch(files: seq<string>, cats: seq<Category>) {
    exists i, j :: 0 <= i < |files| && 0 <= j < |cats| &&
      AnyMatches(cats[j].patterns, files[i]) && !Lockfile.Downgradable(files[i], files)
  }

  lemma ForcedIffUnexcusedHit(files: seq<string>, rules: RuleSet)
    ensures var r := ClassificationOf(files, rules);
      r.forcedHigh <==> exists k :: 0 <= k < |r.highHits| && !Lockfile.Downgradable(r.highHits[k].file, files)
  {
    var hits := HighHits(files, rules.highRiskCategories);
    DedupEmpty(Names(hits));
  }

  lemma UnexcusedHitIsMatch(files: seq<string>, cats: seq<Category>, h: HighHit)
    requires h in HighHits(files, cats) && !Lockfile.Downgradable(h.file, files)
    ensures UnexcusedMatch(files, cats)
  {
    var i, j := HitSound(files, cats, h);
  }

  /** The tier is `high` exactly when some changed file matches some high-risk
      category and that file is not a lockfile whose manifest is unchanged. */
  lemma HighIffUnexcusedMatch(files: seq<string>, rules: RuleSet)
    ensures ClassificationOf(files, rules).tier == High <==> UnexcusedMatch(files, rules.highRiskCategories)
  {
    var cats := rules.highRiskCategories;
    var hits := HighHits(files, cats);
    ClassificationFields(files, rules);
    if ClassificationOf(files, rules).tier == High {
      var k := UnexcusedHitIndex(hits, files);
      UnexcusedHitIsMatch(files, cats, hits[k]);
    }
    if UnexcusedMatch(files, cats) {
      var i, j :| 0 <= i < |files| && 0 <= j < |cats| &&
        AnyMatches(cats[j].patterns, files[i]) && !Lockfile.Downgradable(files[i], files);
      HitComplete(files, cats, i, j);
      UnexcusedMemberBlocks(hits, files, HighHit(files[i], cats[j].name));
    }
  }

  lemma UnexcusedHitIndex(hits: seq<HighHit>, files: seq<string>) returns (k: nat)
    requires |hits| > 0 && !LockfileOnly(hits, files)
    ensures k < |hits| && !Lockfile.Downgradable(hits[k].file, files)
  {
    k :| 0 <= k < |hits| && !Lockfile.Downgradable(hits[k].file, files);
  }

  lemma UnexcusedMemberBlocks(hits: seq<HighHit>, files: seq<string>, h: HighHit)
    requires h in hits && !Lockfile.Downgradable(h.file, files)
    ensures |hits| > 0 && !LockfileOnly(hits, files)
  {
    var k :| 0 <= k < |hits| && hits[k] == h;
  }

  /** The tier is `low` exactly when the change is non-empty, every file matches a
      low-risk pattern, and no high-risk match stands. */
  lemma LowIffAllSafe(files: seq<string>, rules: RuleSet)
    ensures ClassificationOf(files, rules).tier == Low <==>
      |files| > 0 && AllMatchLow(files, rules.lowRiskPatterns) && !UnexcusedMatch(files, rules.highRiskCategories)
  {
    HighIffUnexcusedMatch(files, rules);
  }

  /** An empty change is never `high` and never `low`. */
  lemma EmptyChangeIsUnknown(rules: RuleSet)
    ensures var r := ClassificationOf([], rules);
      && r.tier == Unknown && !r.forcedHigh && !r.allLowSafe && !r.lockfileOnly
      && r.highHits == [] && r.matchedCategories == [] && r.summary == UnknownSummary
  {
  }

  /** The matched categories are the hit categories, each once, in first-seen order. */
  lemma MatchedCategoriesAreHitNames(files: seq<string>, rules: RuleSet, a: nat, b: nat)
    ensures var r := ClassificationOf(files, rules);
      && (forall n :: n in r.matchedCategories <==> exists k :: 0 <= k < |r.highHits| && r.highHits[k].category == n)
      && (|r.matchedCategories| == 0 <==> |r.highHits| == 0)
      && (a < b < |r.matchedCategories| ==>
            r.matchedCategories[a] != r.matchedCategories[b] &&
            FirstIndex(Names(r.highHits), r.matchedCategories[a]) < FirstIndex(Names(r.highHits), r.matchedCategories[b]))
  {
    var r := ClassificationOf(files, rules);
    var names := Names(r.highHits);
    DedupEmpty(names);
    forall n ensures n in r.matchedCategories <==> exists k :: 0 <= k < |r.highHits| && r.highHits[k].category == n {
      if n in names {
        var k :| 0 <= k < |names| && names[k] == n;
        assert r.highHits[k].category == n;
      }
      if exists k :: 0 <= k < |r.highHits| && r.highHits[k].category == n {
        var k :| 0 <= k < |r.highHits| && r.highHits[k].category == n;
        assert names[k] == n;
      }
    }
    if a < b < |r.matchedCategories| {
      DedupKeepsFirstSeenOrder(names, a, b);
    }
  }

  /** A lockfile-only change is never forced high, and says so in its summary. */
  lemma LockfileOnlyIsNotForced(files: seq<string>, rules: RuleSet)
    requires ClassificationOf(files, rules).lockfileOnly
    ensures var r := ClassificationOf(files, rules);
      !r.forcedHigh && r.tier != High && r.summary == LockfileSummary
  {
  }

  /** The summary identifies the outcome: which sentence appears says which
      branch of the precedence was taken. */
  lemma SummaryIdentifiesOutcome(files: seq<string>, rules: RuleSet)
    ensures var r := ClassificationOf(files, rules);
      && (r.tier == High <==> r.summary == ForcedSummary(r.matchedCategories))
      && (r.lockfileOnly <==> r.summary == LockfileSummary)
      && (r.tier == Low && !r.lockfileOnly <==> r.summary == LowSummary)
      && (r.tier == Unknown && !r.lockfileOnly <==> r.summary == UnknownSummary)
  {
    var r := ClassificationOf(files, rules);
    var forced := ForcedSummary(r.matchedCategories);
    assert forced[0] == 'H';
    SentencesDiffer();
  }

  /** A forced-high result names every matched category in its summary, in
      order: name `k` sits after the opening text at the width of the names
      before it, followed by `, ` unless it is the last. */
  lemma ForcedSummaryNamesCategories(files: seq<string>, rules: RuleSet, k: nat)
    requires ClassificationOf(files, rules).tier == High
    requires k < |ClassificationOf(files, rules).matchedCategories|
    ensures var r := ClassificationOf(files, rules);
      var at := |ForcedPrefix| + JoinWidth(r.matchedCategories[..k], ", ");
      && OccursAt(r.summary, r.matchedCategories[k], at)
      && (k + 1 < |r.matchedCategories| ==> OccursAt(r.summary, ", ", at + |r.matchedCategories[k]|))
  {
    var r := ClassificationOf(files, rules);
    SummaryIdentifiesOutcome(files, rules);
    ForcedSummaryNames(r.matchedCategories, k);
  }

  lemma ForcedSummaryNames(names: seq<string>, k: nat)
    requires k < |names|
    ensures var at := |ForcedPrefix| + JoinWidth(names[..k], ", ");
      && OccursAt(ForcedSummary(names), names[k], at)
      && (k + 1 < |names| ==> OccursAt(ForcedSummary(names), ", ", at + |names[k]|))
  {
    JoinItemInContext(ForcedPrefix, names, ", ", ")", k);
  }

  lemma SentencesDiffer()
    ensures LockfileSummary[0] == 'L'
    ensures LowSummary[0] == 'L'
    ensures UnknownSummary[0] == 'N'
    ensures LockfileSummary != LowSummary
  {
    assert LockfileSummary[2] == 'c' && LowSummary[2] == 'w';
  }

  // ---------------------------------------------------------------------
  // The gate: validate the rules document, then classify

  datatype GateOutcome =
    | SchemaRejected(errors: seq<string>)
    | ValidationCrashed
    | Classified(result: Classification)

  /** The script from the parsed inputs to the result record: a rules document
      that fails validation is never classified. */
  method RunGate(rules: Json, files: seq<string>) returns (outcome: GateOutcome)
    ensures outcome.Classified? <==> Schema(rules)
    ensures outcome.SchemaRejected? <==> Validate(rules).Completed? && Validate(rules).errors != []
    ensures outcome.SchemaRejected? ==> outcome.errors == Validate(rules).errors
    ensures outcome == ValidationCrashed <==> Validate(rules) == Crashed
    ensures outcome.Classified? ==> Schema(rules) && outcome.result == ClassificationOf(files, Decode(rules))
  {
    AcceptedIffSchema(rules);
    var v := ValidateRules(rules);
    match v
    case Crashed =>
      outcome := ValidationCrashed;
    case Completed(errors) =>
      if |errors| > 0 {
        outcome := SchemaRejected(errors);
      } else {
        var r := Classify(files, Decode(rules));
        outcome := Classified(r);
      }
  }

  // ---------------------------------------------------------------------
  // Worked examples, with one category guarding `package-lock.json`
  // files at any depth and documentation as the only low-risk pattern.

  // Each glob is written as the concatenation the glob lemmas are stated on
  // (`"**/" + name`, `prefix + "**"`).
  const ExampleRules: RuleSet := RuleSet([Category("dependencies", ["**/" + "package-lock.json"])], ["docs/" + "**"])

  lemma LockfileIsHigh(dir: string)
    requires dir == [] || (dir[|dir| - 1] == '/' && Glob.LineRun(dir))
    ensures AnyMatches(ExampleRules.highRiskCategories[0].patterns, dir + "package-lock.json")
  {
    Glob.AnyDepthLiteralMatches("package-lock.json", dir);
    assert ExampleRules.highRiskCategories[0].patterns[0] == "**/" + "package-lock.json";
  }

  lemma ShortPathIsNotHigh(f: string)
    requires |f| < |"package-lock.json"| || f[|f| - |"package-lock.json"|..] != "package-lock.json"
    ensures !AnyMatches(ExampleRules.highRiskCategories[0].patterns, f)
  {
    var g := ExampleRules.highRiskCategories[0].patterns[0];
    assert g == "**/" + "package-lock.json";
    if Glob.GlobMatches(g, f) {
      Glob.AnyDepthLiteralSuffix("package-lock.json", f);
      assert false;
    }
  }

  lemma DocsPatternSemantics(f: string)
    ensures AnyMatches(ExampleRules.lowRiskPatterns, f) <==> |f| >= 5 && f[..5] == "docs/" && Glob.LineRun(f[5..])
  {
    var g := ExampleRules.lowRiskPatterns[0];
    assert g == "docs/" + "**";
    Glob.PrefixGlobSemantics("docs/", f);
  }

  lemma OutsideDocsIsNotLow(f: string)
    requires |f| >= 5 && f[0] != 'd'
    ensures !AnyMatches(ExampleRules.lowRiskPatterns, f)
  {
    DocsPatternSemantics(f);
    assert f[..5][0] == f[0];
    assert "docs/"[0] == 'd';
  }

  lemma HighHitsOfPair(f1: string, f2: string, cats: seq<Category>)
    ensures HighHits([f1], cats) == HitsForFile(f1, cats)
    ensures HighHits([f1, f2], cats) == HitsForFile(f1, cats) + HitsForFile(f2, cats)
  {
    assert [f1][..0] == [];
    assert [f1, f2][..1] == [f1];
  }

  /** A directory the example lockfile can sit in: short enough not to contain
      the lockfile's name, and not under `docs/`. */
  predicate ExampleDirectory(dir: string) {
    && (dir == [] || (dir[|dir| - 1] == '/' && Glob.LineRun(dir)))
    && |dir| < |"package-lock.json"|
    && (dir == [] || dir[0] != 'd')
  }

  /** The record's flags in terms of the hits, for reading off an example. */
  lemma ClassificationFields(files: seq<string>, rules: RuleSet)
    ensures var r := ClassificationOf(files, rules);
      var hits := HighHits(files, rules.highRiskCategories);
      && r.highHits == hits
      && r.lockfileOnly == LockfileOnly(hits, files)
      && r.forcedHigh == (|hits| > 0 && !LockfileOnly(hits, files))
      && r.allLowSafe == (!r.forcedHigh && |files| > 0 && AllMatchLow(files, rules.lowRiskPatterns))
      && r.tier == (if r.forcedHigh then High else if r.allLowSafe then Low else Unknown)
  {
    DedupEmpty(Names(HighHits(files, rules.highRiskCategories)));
  }

  lemma ExcusedOneHit(h: HighHit, files: seq<string>)
    requires Lockfile.Downgradable(h.file, files)
    ensures LockfileOnly([h], files)
  {
    forall k | 0 <= k < |[h]| ensures Lockfile.Downgradable([h][k].file, files) {
      assert [h][k] == h;
    }
  }

  lemma UnexcusedOneHit(h: HighHit, files: seq<string>)
    requires !Lockfile.Downgradable(h.file, files)
    ensures !LockfileOnly([h], files)
  {
    assert [h][0] == h;
  }

  lemma ExampleLockfileHits(dir: string)
    requires ExampleDirectory(dir)
    ensures HighHits([dir + "package-lock.json"], ExampleRules.highRiskCategories)
      == [HighHit(dir + "package-lock.json", "dependencies")]
  {
    var file := dir + "package-lock.json";
    var cats := ExampleRules.highRiskCategories;
    LockfileIsHigh(dir);
    HitsForOneCategory(file, cats[0]);
    HighHitsOfPair(file, file, cats);
  }

  lemma ExampleManifestIsNotHigh(dir: string)
    ensures !AnyMatches(ExampleRules.highRiskCategories[0].patterns, dir + "package.json")
  {
    var manifest := dir + "package.json";
    if |manifest| >= |"package-lock.json"| {
      var n := |manifest|;
      assert manifest[n - 17..][5] == manifest[n - 12] == 'p';
      assert "package-lock.json"[5] == 'g';
    }
    ShortPathIsNotHigh(manifest);
  }

  lemma ExamplePairHits(dir: string)
    requires ExampleDirectory(dir)
    ensures HighHits([dir + "package-lock.json", dir + "package.json"], ExampleRules.highRiskCategories)
      == [HighHit(dir + "package-lock.json", "dependencies")]
  {
    var file, manifest := dir + "package-lock.json", dir + "package.json";
    var cats := ExampleRules.highRiskCategories;
    LockfileIsHigh(dir);
    ExampleManifestIsNotHigh(dir);
    HitsForOneCategory(file, cats[0]);
    HitsForOneCategory(manifest, cats[0]);
    HighHitsOfPair(file, manifest, cats);
  }

  lemma ExampleLockfileIsNotLow(dir: string)
    requires ExampleDirectory(dir)
    ensures !AllMatchLow([dir + "package-lock.json"], ExampleRules.lowRiskPatterns)
  {
    var file := dir + "package-lock.json";
    assert file[0] != 'd';
    OutsideDocsIsNotLow(file);
    assert [file][0] == file;
  }

  lemma ManifestIsNotTheLockfile(dir: string)
    ensures dir + "package.json" != dir + "package-lock.json"
  {
    assert |dir + "package.json"| != |dir + "package-lock.json"|;
  }

  /** One hit, excused, and some file outside the low-risk patterns: `unknown`. */
  lemma OneExcusedHitOutcome(files: seq<string>, rules: RuleSet, h: HighHit)
    requires HighHits(files, rules.highRiskCategories) == [h]
    requires Lockfile.Downgradable(h.file, files)
    requires !AllMatchLow(files, rules.lowRiskPatterns)
    ensures var r := ClassificationOf(files, rules);
      r.lockfileOnly && !r.forcedHigh && r.tier == Unknown
  {
    ClassificationFields(files, rules);
    ExcusedOneHit(h, files);
  }

  /** One hit, not excused: forced `high`. */
  lemma OneUnexcusedHitOutcome(files: seq<string>, rules: RuleSet, h: HighHit)
    requires HighHits(files, rules.highRiskCategories) == [h]
    requires !Lockfile.Downgradable(h.file, files)
    ensures var r := ClassificationOf(files, rules);
      !r.lockfileOnly && r.forcedHigh && r.tier == High
  {
    ClassificationFields(files, rules);
    UnexcusedOneHit(h, files);
  }

  lemma PackageLockManifest()
    ensures "package-lock.json" in Lockfile.Manifests
    ensures Lockfile.Manifests["package-lock.json"] == "package.json"
  {
  }

  lemma ExampleLockfileExcused(dir: string)
    requires ExampleDirectory(dir)
    ensures Lockfile.Downgradable(dir + "package-lock.json", [dir + "package-lock.json"])
  {
    var file := dir + "package-lock.json";
    PackageLockManifest();
    Lockfile.SiblingManifest(dir, "package-lock.json", [file]);
    ManifestIsNotTheLockfile(dir);
    assert dir + "package.json" !in [file];
  }

  lemma ExampleLockfileNotExcused(dir: string)
    requires ExampleDirectory(dir)
    ensures !Lockfile.Downgradable(dir + "package-lock.json", [dir + "package-lock.json", dir + "package.json"])
  {
    var file, manifest := dir + "package-lock.json", dir + "package.json";
    PackageLockManifest();
    Lockfile.SiblingManifest(dir, "package-lock.json", [file, manifest]);
    assert manifest in [file, manifest];
  }

  /** A lockfile changed without its manifest: the exception applies, so the tier is not `high`. */
  lemma LockfileOnlyExample(dir: string)
    requires ExampleDirectory(dir)
    ensures var r := ClassificationOf([dir + "package-lock.json"], ExampleRules);
      r.lockfileOnly && !r.forcedHigh && r.tier == Unknown
  {
    var file := dir + "package-lock.json";
    ExampleLockfileHits(dir);
    ExampleLockfileExcused(dir);
    ExampleLockfileIsNotLow(dir);
    OneExcusedHitOutcome([file], ExampleRules, HighHit(file, "dependencies"));
  }

  /** The same lockfile changed together with its manifest: the tier is `high`. */
  lemma LockfileWithManifestExample(dir: string)
    requires ExampleDirectory(dir)
    ensures var r := ClassificationOf([dir + "package-lock.json", dir + "package.json"], ExampleRules);
      !r.lockfileOnly && r.forcedHigh && r.tier == High
  {
    var file, manifest := dir + "package-lock.json", dir + "package.json";
    ExamplePairHits(dir);
    ExampleLockfileNotExcused(dir);
    OneUnexcusedHitOutcome([file, manifest], ExampleRules, HighHit(file, "dependencies"));
  }

  lemma DocsOnlyHits(f1: string, f2: string)
    requires |f1| < |"package-lock.json"| && |f2| < |"package-lock.json"|
    ensures HighHits([f1, f2], ExampleRules.highRiskCategories) == []
  {
    var cats := ExampleRules.highRiskCategories;
    ShortPathIsNotHigh(f1);
    ShortPathIsNotHigh(f2);
    HitsForOneCategory(f1, cats[0]);
    HitsForOneCategory(f2, cats[0]);
    HighHitsOfPair(f1, f2, cats);
  }

  lemma DocsOnlyAreLow(n1: string, n2: string)
    requires Glob.LineRun(n1) && Glob.LineRun(n2)
    ensures AllMatchLow(["docs/" + n1, "docs/" + n2], ExampleRules.lowRiskPatterns)
  {
    var f1, f2 := "docs/" + n1, "docs/" + n2;
    DocsPatternSemantics(f1);
    DocsPatternSemantics(f2);
    assert f1[..5] == "docs/" && f1[5..] == n1;
    assert f2[..5] == "docs/" && f2[5..] == n2;
  }

  /** Documentation only: no high-risk match, every file is low-risk, so the tier is `low`. */
  lemma DocsOnlyExample()
    ensures var r := ClassificationOf(["docs/readme.md", "docs/faq.md"], ExampleRules);
      r.allLowSafe && r.tier == Low && r.highHits == []
  {
    // The paths are built from pieces so that the lemmas about `"docs/" + name` apply.
    var n1, n2 := "readme" + ".md", "faq" + ".md";
    assert Glob.LineRun(n1) && Glob.LineRun(n2);
    DocsOnlyHits("docs/" + n1, "docs/" + n2);
    DocsOnlyAreLow(n1, n2);
    ClassificationFields(["docs/" + n1, "docs/" + n2], ExampleRules);
    assert "docs/" + n1 == "docs/readme.md" && "docs/" + n2 == "docs/faq.md";
  }
}
