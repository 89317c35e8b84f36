/**
 * The GitHub pull-request reviewer: which changed files are sent for review,
 * how the PR number is read from the Actions ref, how the comma-separated
 * exclude list is parsed, and the Markdown summary that is posted.
 *
 * GitHub's file list, the OpenAI completion and the posting of the comment
 * are outside the model: the files are an input, the completion is the
 * function parameter `ai`, and `RunReview` returns the body it would post.
 */
module CodeReviewer {
  import opened Wrappers
  import opened Strings
  import opened Numerals
  import opened Sequences

  const ApiBase: string := "https://api.github.com"

  /** The reviewer's configuration, fixed once construction succeeds. */
  datatype Reviewer = Reviewer(githubToken: string, model: string, repository: string, prNumber: int, apiBase: string)

  /** The two `ValueError`s the constructor raises. */
  datatype ReviewerError = RepositoryNotSpecified | PrNumberNotDetermined

  /** One entry of GitHub's "list pull request files" answer; `patch` is absent for binary or very large files. */
  datatype FileInfo = FileInfo(filename: string, status: string, patch: Option<string>)

  /** A review that made it into the summary. */
  datatype Review = Review(filename: string, text: string)

  // ---------------------------------------------------------------------------
  // PR number and construction

  /**
   * The PR number in a ref such as `refs/pull/42/merge`: `None` unless the ref
   * contains `/pull/`, else the third `/`-separated segment read as an integer.
   */
  function GetPrNumber(githubRef: string): (r: Option<int>)
    ensures !Contains(githubRef, "/pull/") ==> r == None
    ensures r.Some? ==> |Split(githubRef, '/')| >= 3 && IsSignedDigits(Split(githubRef, '/')[2])
  {
    if !Contains(githubRef, "/pull/") then None
    else
      var parts := Split(githubRef, '/');
      if |parts| < 3 then None
      else
        var n := ParseInt(parts[2]);
        if n.Some? then ParseIntAccepts(parts[2]); n else n
  }

  /** A run of ASCII digits, possibly after one sign: the segments the PR number is read from. */
  predicate IsSignedDigits(s: string) {
    forall k :: 0 <= k < |s| ==> IsDigit(s[k]) || (k == 0 && (s[0] == '+' || s[0] == '-'))
  }

  /**
   * Construction: an empty or missing repository falls back to `envRepository`
   * (GITHUB_REPOSITORY), a missing or zero PR number to `GetPrNumber(githubRef)`
   * (GITHUB_REF, "" when unset); an empty repository or a missing or zero PR
   * number is then an error, the repository being checked first.
   */
  function NewReviewer(githubToken: string, model: string, repository: Option<string>, prNumber: Option<int>,
                       envRepository: Option<string>, githubRef: string): (r: Result<Reviewer, ReviewerError>)
    ensures r.Ok? ==> && r.value.repository != "" && r.value.prNumber != 0
                      && r.value.githubToken == githubToken && r.value.model == model
                      && r.value.apiBase == ApiBase
    ensures r.Ok? && repository.Some? && repository.value != "" ==> r.value.repository == repository.value
    ensures r.Ok? && prNumber.Some? && prNumber.value != 0 ==> r.value.prNumber == prNumber.value
    ensures r.Ok? && (repository.None? || repository.value == "") ==> envRepository == Some(r.value.repository)
    ensures r.Ok? && (prNumber.None? || prNumber.value == 0) ==> GetPrNumber(githubRef) == Some(r.value.prNumber)
    ensures r == Err(RepositoryNotSpecified) <==>
              (repository.None? || repository.value == "") && (envRepository.None? || envRepository.value == "")
    ensures r == Err(PrNumberNotDetermined) <==>
              && !((repository.None? || repository.value == "") && (envRepository.None? || envRepository.value == ""))
              && (prNumber.None? || prNumber.value == 0)
              && GetPrNumber(githubRef) in {None, Some(0)}
  {
    var repo := if repository.Some? && repository.value != "" then repository else envRepository;
    var pr := if prNumber.Some? && prNumber.value != 0 then prNumber else GetPrNumber(githubRef);
    if repo.None? || repo.value == "" then Err(RepositoryNotSpecified)
    else if pr.None? || pr.value == 0 then Err(PrNumberNotDetermined)
    else Ok(Reviewer(githubToken, model, repo.value, pr.value, ApiBase))
  }

  /** A ref containing `/pull/` has at least two slashes, so its third segment always exists. */
  lemma PullRefHasThirdSegment(githubRef: string)
    requires Contains(githubRef, "/pull/")
    ensures |Split(githubRef, '/')| >= 3
  {
    var i :| 0 <= i <= |githubRef| - 6 && OccursAt(githubRef, "/pull/", i);
    assert githubRef == githubRef[..i] + "/pull/" + githubRef[i + 6..];
    CountConcat(githubRef[..i] + "/pull/", githubRef[i + 6..], '/');
    CountConcat(githubRef[..i], "/pull/", '/');
    assert Count("/pull/", '/') == 2 by {
      assert "/pull/"[1..] == "pull/";
      assert "pull/"[1..] == "ull/";
      assert "ull/"[1..] == "ll/";
      assert "ll/"[1..] == "l/";
      assert "l/"[1..] == "/";
      assert "/"[1..] == "";
    }
    SplitLength(githubRef, '/');
  }

  /** A merge ref is its four path segments joined by slashes. */
  lemma MergeRefJoin(digits: string)
    ensures Join(["refs", "pull", digits, "merge"], "/") == "refs/pull/" + digits + "/merge"
  {
    var parts := ["refs", "pull", digits, "merge"];
    assert parts[1..][1..][1..] == ["merge"];
    assert Join([digits, "merge"], "/") == digits + "/" + "merge";
    assert parts[1..] == ["pull", digits, "merge"];
    assert Join(parts[1..], "/") == "pull" + "/" + (digits + "/" + "merge");
    assert Join(parts, "/") == "refs" + "/" + ("pull" + "/" + (digits + "/" + "merge"));
    assert "refs" + "/" + ("pull" + "/" + (digits + "/" + "merge")) == "refs/pull/" + digits + "/merge";
  }

  /** The ref GitHub Actions sets for a pull request yields its number. */
  lemma GetPrNumberOfMergeRef(n: int)
    ensures GetPrNumber("refs/pull/" + IntToString(n) + "/merge") == Some(n)
  {
    var digits := IntToString(n);
    var ref := "refs/pull/" + digits + "/merge";
    assert OccursAt(ref, "/pull/", 4) by {
      assert ref[4..10] == "/pull/";
    }
    var parts := ["refs", "pull", digits, "merge"];
    MergeRefJoin(digits);
    assert '/' !in digits by {
      if digits[0] == '-' {
        assert forall k :: 1 <= k < |digits| ==> digits[k] == digits[1..][k - 1];
      }
    }
    assert '/' !in "refs" && '/' !in "pull" && '/' !in "merge";
    SplitJoin(parts, '/');
    ParseIntOfIntToString(n);
  }

  /** A zero PR number is as good as none: without a usable ref, construction fails. */
  lemma ZeroPrNumberRejected(githubToken: string, model: string, repository: string, githubRef: string)
    requires repository != ""
    requires !Contains(githubRef, "/pull/")
    ensures NewReviewer(githubToken, model, Some(repository), Some(0), None, githubRef) == Err(PrNumberNotDetermined)
  {
  }

  /** Inside a pull-request workflow, with no explicit PR number, construction takes it from the ref. */
  lemma PrNumberFromMergeRef(githubToken: string, model: string, envRepository: string, n: int)
    requires envRepository != "" && n != 0
    ensures var r := NewReviewer(githubToken, model, None, None, Some(envRepository),
                                 "refs/pull/" + IntToString(n) + "/merge");
            r == Ok(Reviewer(githubToken, model, envRepository, n, ApiBase))
  {
    GetPrNumberOfMergeRef(n);
  }

  // ---------------------------------------------------------------------------
  // Exclude patterns

  /**
   * Whether one exclude pattern matches a filename: `**\/x` when `x` is a
   * suffix or a substring, `*.ext` when the name ends in `.ext`, any other
   * pattern when it is a substring.
   */
  predicate Matches(pattern: string, filename: string)
    ensures Matches(pattern, filename) ==> Contains(filename, Literal(pattern))
  {
    if StartsWith(pattern, "**/") then
      EndsWithContains(filename, pattern[3..]);
      EndsWith(filename, pattern[3..]) || Contains(filename, pattern[3..])
    else if StartsWith(pattern, "*.") then
      EndsWithContains(filename, pattern[1..]);
      EndsWith(filename, pattern[1..])
    else
      Contains(filename, pattern)
  }

  /** The text a pattern looks for once its glob prefix, `**\/` or `*`, is dropped. */
  function Literal(pattern: string): string {
    if StartsWith(pattern, "**/") then pattern[3..]
    else if StartsWith(pattern, "*.") then pattern[1..]
    else pattern
  }

  /** Some exclude pattern matches the filename. */
  predicate Excluded(filename: string, patterns: seq<string>)
    ensures Excluded(filename, patterns) <==> exists p :: p in patterns && Matches(p, filename)
  {
    exists k :: 0 <= k < |patterns| && Matches(patterns[k], filename)
  }

  /** `should_review_file`: scan the patterns, answering `false` at the first one that matches. */
  method ShouldReviewFile(filename: string, excludePatterns: seq<string>) returns (review: bool)
    ensures review <==> !Excluded(filename, excludePatterns)
  {
    for i := 0 to |excludePatterns|
      invariant forall k :: 0 <= k < i ==> !Matches(excludePatterns[k], filename)
    {
      if Matches(excludePatterns[i], filename) {
        return false;
      }
    }
    return true;
  }

  /** A `**\/x` pattern excludes exactly the filenames containing `x`: its suffix test adds nothing. */
  lemma DoubleStarMatchesSubstring(x: string, filename: string)
    ensures Matches("**/" + x, filename) <==> Contains(filename, x)
  {
    assert StartsWith("**/" + x, "**/");
    assert ("**/" + x)[3..] == x;
    EndsWithContains(filename, x);
  }

  /** The bare pattern `**\/` excludes every file. */
  lemma DoubleStarAloneExcludesAll(filename: string)
    ensures Matches("**/", filename)
  {
    DoubleStarMatchesSubstring("", filename);
    assert "**/" + "" == "**/";
    assert OccursAt(filename, "", 0);
  }

  /** A `*.ext` pattern excludes exactly the filenames ending in `.ext`. */
  lemma StarDotMatchesSuffix(ext: string, filename: string)
    ensures Matches("*." + ext, filename) <==> EndsWith(filename, "." + ext)
  {
    var p := "*." + ext;
    assert p[1] == '.';
    assert !StartsWith(p, "**/");
    assert StartsWith(p, "*.");
    assert p[1..] == "." + ext;
  }

  /** Any other pattern excludes exactly the filenames containing it. */
  lemma PlainMatchesSubstring(pattern: string, filename: string)
    requires !StartsWith(pattern, "**/") && !StartsWith(pattern, "*.")
    ensures Matches(pattern, filename) <==> Contains(filename, pattern)
  {
  }

  /** With no exclude patterns every file is reviewed. */
  lemma NoPatternsExcludeNothing(filename: string)
    ensures !Excluded(filename, [])
  {
  }

  /** Only the set of patterns matters, not their order or repetition. */
  lemma ExcludedIgnoresOrder(filename: string, ps: seq<string>, qs: seq<string>)
    requires forall p :: p in ps <==> p in qs
    ensures Excluded(filename, ps) <==> Excluded(filename, qs)
  {
    if Excluded(filename, ps) {
      var k :| 0 <= k < |ps| && Matches(ps[k], filename);
      assert ps[k] in qs;
    }
    if Excluded(filename, qs) {
      var k :| 0 <= k < |qs| && Matches(qs[k], filename);
      assert qs[k] in ps;
    }
  }

  /** Adding patterns can only turn "review" into "skip", never the other way. */
  lemma ExcludedGrows(filename: string, ps: seq<string>, qs: seq<string>)
    ensures Excluded(filename, ps) ==> Excluded(filename, ps + qs)
    ensures Excluded(filename, qs) ==> Excluded(filename, ps + qs)
  {
    if Excluded(filename, ps) {
      var k :| 0 <= k < |ps| && Matches(ps[k], filename);
      assert (ps + qs)[k] == ps[k];
    }
    if Excluded(filename, qs) {
      var k :| 0 <= k < |qs| && Matches(qs[k], filename);
      assert (ps + qs)[|ps| + k] == qs[k];
    }
  }

  /** The stripped, non-empty pieces, in order (the filter of the comprehension). */
  /** One piece of the comprehension: its stripped form, kept only when non-empty. */
  function NonBlankStripped(piece: string): Option<string> {
    var p := Strip(piece);
    if p != "" then Some(p) else None
  }

  function KeepStripped(pieces: seq<string>): (r: seq<string>)
    ensures |r| <= |pieces|
    ensures forall k :: 0 <= k < |r| ==> r[k] != "" && IsStripped(r[k])
  {
    FilterMapFrom(pieces, NonBlankStripped);
    FilterMap(pieces, NonBlankStripped)
  }

  /** The EXCLUDE setting: split on commas, strip each piece, drop the empty ones. */
  function ParseExcludePatterns(exclude: string): (r: seq<string>)
    ensures forall k :: 0 <= k < |r| ==> r[k] != "" && IsStripped(r[k]) && ',' !in r[k]
  {
    var pieces := Split(exclude, ',');
    var r := KeepStripped(pieces);
    assert forall k :: 0 <= k < |r| ==> ',' !in r[k] by {
      forall k | 0 <= k < |r| ensures ',' !in r[k] {
        KeepStrippedFrom(pieces, r[k]);
        var j :| 0 <= j < |pieces| && Strip(pieces[j]) == r[k];
        StripKeepsOut(pieces[j], ',');
      }
    }
    r
  }

  lemma KeepStrippedFrom(pieces: seq<string>, p: string)
    ensures p in KeepStripped(pieces) <==> p != "" && exists j :: 0 <= j < |pieces| && Strip(pieces[j]) == p
  {
    var r := KeepStripped(pieces);
    var idx := FilterMapPositions(pieces, NonBlankStripped);
    if p in r {
      var k :| 0 <= k < |r| && r[k] == p;
      assert NonBlankStripped(pieces[idx[k]]) == Some(p);
    }
    if p != "" && exists j :: 0 <= j < |pieces| && Strip(pieces[j]) == p {
      var j :| 0 <= j < |pieces| && Strip(pieces[j]) == p;
      assert NonBlankStripped(pieces[j]).Some?;
      var k :| 0 <= k < |idx| && idx[k] == j;
      assert r[k] == p;
    }
  }

  lemma KeepStrippedConcat(xs: seq<string>, ys: seq<string>)
    ensures KeepStripped(xs + ys) == KeepStripped(xs) + KeepStripped(ys)
  {
    FilterMapAppend(xs, ys, NonBlankStripped);
  }

  /** A character absent from a string is absent from its stripped form. */
  lemma StripKeepsOut(s: string, c: char)
    requires c !in s
    ensures c !in Strip(s)
  {
    var r := Strip(s);
    var i := StripRemovesOuterSpace(s);
    forall k | 0 <= k < |r| ensures r[k] != c {
      assert r[k] == s[i + k];
    }
  }

  /** A pattern is parsed exactly when it is the stripped, non-empty form of one comma-separated piece. */
  lemma ParseExcludePatternsMembers(exclude: string, p: string)
    ensures p in ParseExcludePatterns(exclude) <==>
              p != "" && exists piece :: piece in Split(exclude, ',') && Strip(piece) == p
  {
    var pieces := Split(exclude, ',');
    assert ParseExcludePatterns(exclude) == KeepStripped(pieces);
    KeepStrippedFrom(pieces, p);
    if exists piece :: piece in pieces && Strip(piece) == p {
      var piece :| piece in pieces && Strip(piece) == p;
      var j :| 0 <= j < |pieces| && pieces[j] == piece;
      assert Strip(pieces[j]) == p;
    }
    if exists j :: 0 <= j < |pieces| && Strip(pieces[j]) == p {
      var j :| 0 <= j < |pieces| && Strip(pieces[j]) == p;
      assert pieces[j] in pieces;
    }
  }

  /** The patterns keep the order they have in the setting: a comma separates two independent lists. */
  lemma ParseExcludePatternsConcat(a: string, b: string)
    ensures ParseExcludePatterns(a + "," + b) == ParseExcludePatterns(a) + ParseExcludePatterns(b)
  {
    SplitConcat(a, ',', b);
    KeepStrippedConcat(Split(a, ','), Split(b, ','));
  }

  /** A single pattern, already stripped and free of commas, is parsed back as itself. */
  lemma ParseExcludePatternsSingle(p: string)
    requires p != "" && IsStripped(p) && ',' !in p
    ensures ParseExcludePatterns(p) == [p]
  {
    SplitNoSep(p, ',');
    StripStripped(p);
    assert [p][..0] == [];
    assert NonBlankStripped(p) == Some(p);
  }

  /** An unset or empty EXCLUDE yields no patterns. */
  lemma ParseExcludePatternsEmpty()
    ensures ParseExcludePatterns("") == []
  {
    assert Strip("") == "";
  }

  // ---------------------------------------------------------------------------
  // Reviewing files and the summary

  /** `get_file_diff`: the patch, or "" when the entry has none. */
  function Diff(f: FileInfo): (d: string)
    ensures f.patch.Some? ==> d == f.patch.value
    ensures f.patch.None? ==> d == ""
  {
    f.patch.GetOr("")
  }

  /**
   * `review_code_with_ai`: a blank diff is never sent; otherwise the
   * completion's text, stripped, or `None` when the call fails.
   */
  function ReviewCodeWithAi(filename: string, diff: string, ai: (string, string) -> Option<string>): (r: Option<string>)
    ensures IsBlank(diff) ==> r == None
    ensures r.Some? ==> IsStripped(r.value)
  {
    if Strip(diff) == "" then None
    else
      match ai(filename, diff)
      case None => None
      case Some(content) => Some(Strip(content))
  }

  /** The review one changed file contributes to the summary, if any. */
  function ReviewOf(f: FileInfo, patterns: seq<string>, ai: (string, string) -> Option<string>): (r: Option<Review>)
    ensures r.Some? ==> && r.value.filename == f.filename && !Excluded(f.filename, patterns)
                        && f.status != "removed" && r.value.text != "" && IsStripped(r.value.text)
  {
    if Excluded(f.filename, patterns) then None
    else if f.status == "removed" then None
    else if Diff(f) == "" then None
    else
      match ReviewCodeWithAi(f.filename, Diff(f), ai)
      case Some(text) => if text != "" then Some(Review(f.filename, text)) else None
      case None => None
  }

  /** The reviews of all files, in file order. */
  function Reviews(files: seq<FileInfo>, patterns: seq<string>, ai: (string, string) -> Option<string>): (r: seq<Review>)
    ensures |r| <= |files|
  {
    FilterMap(files, (f: FileInfo) => ReviewOf(f, patterns, ai))
  }

  /** Every review is of a listed, not removed, not excluded file, and its text is non-empty and stripped. */
  lemma ReviewsPassGates(files: seq<FileInfo>, patterns: seq<string>, ai: (string, string) -> Option<string>)
    ensures var r := Reviews(files, patterns, ai);
            forall k :: 0 <= k < |r| ==>
              && !Excluded(r[k].filename, patterns) && r[k].text != "" && IsStripped(r[k].text)
              && exists j :: 0 <= j < |files| && files[j].filename == r[k].filename && files[j].status != "removed"
  {
    FilterMapFrom(files, (f: FileInfo) => ReviewOf(f, patterns, ai));
  }

  function Filenames(rvs: seq<Review>): seq<string> {
    seq(|rvs|, k requires 0 <= k < |rvs| => rvs[k].filename)
  }

  function Section(rv: Review): string {
    "### " + rv.filename + "\n\n" + rv.text
  }

  function Sections(rvs: seq<Review>): seq<string> {
    seq(|rvs|, k requires 0 <= k < |rvs| => Section(rvs[k]))
  }

  const Header: string := "## AI Code Review\n\n"
  const Separator: string := "\n\n---\n\n"

  function Footer(model: string): string {
    "\n\n---\n*Reviewed by " + model + "*"
  }

  function Summary(sections: seq<string>, model: string): (body: string)
    ensures StartsWith(body, Header) && EndsWith(body, Footer(model))
  {
    var body := Header + Join(sections, Separator) + Footer(model);
    assert body[..|Header|] == Header;
    assert body[|body| - |Footer(model)|..] == Footer(model);
    body
  }

  /** The comment that is posted, or `None` when no file produced a review. */
  function PostedBody(rvs: seq<Review>, model: string): (posted: Option<string>)
    ensures posted.Some? <==> rvs != []
    ensures posted.Some? ==> StartsWith(posted.value, Header) && EndsWith(posted.value, Footer(model))
  {
    if rvs == [] then None else Some(Summary(Sections(rvs), model))
  }

  /**
   * `run_review`: walk the changed files, skipping excluded, removed and
   * patch-less ones, collect each non-empty review as a section, then build
   * the summary. Returns the body that is posted and the reviewed filenames.
   */
  method RunReview(reviewer: Reviewer, files: seq<FileInfo>, excludePatterns: Option<seq<string>>,
                   ai: (string, string) -> Option<string>)
    returns (posted: Option<string>, reviewedFiles: seq<string>)
    ensures var rvs := Reviews(files, excludePatterns.GetOr([]), ai);
            posted == PostedBody(rvs, reviewer.model) && reviewedFiles == Filenames(rvs)
  {
    var patterns := excludePatterns.GetOr([]);
    reviewedFiles := [];
    var reviewSummary: seq<string> := [];
    for i := 0 to |files|
      invariant reviewedFiles == Filenames(Reviews(files[..i], patterns, ai))
      invariant reviewSummary == Sections(Reviews(files[..i], patterns, ai))
    {
      ReviewsStep(files, i, patterns, ai);
      ghost var before := Reviews(files[..i], patterns, ai);
      var fileInfo := files[i];
      var filename := fileInfo.filename;
      var review := ShouldReviewFile(filename, patterns);
      if !review {
        assert ReviewOf(fileInfo, patterns, ai) == None;
        continue;
      }
      if fileInfo.status == "removed" {
        assert ReviewOf(fileInfo, patterns, ai) == None;
        continue;
      }
      var diff := Diff(fileInfo);
      if diff == "" {
        assert ReviewOf(fileInfo, patterns, ai) == None;
        continue;
      }
      var text := ReviewCodeWithAi(filename, diff, ai);
      if text.Some? && text.value != "" {
        var rv := Review(filename, text.value);
        assert ReviewOf(fileInfo, patterns, ai) == Some(rv);
        ListingsAppend(before, rv);
        reviewedFiles := reviewedFiles + [filename];
        reviewSummary := reviewSummary + ["### " + filename + "\n\n" + text.value];
      } else {
        assert ReviewOf(fileInfo, patterns, ai) == None;
      }
    }
    assert files[..|files|] == files;
    if reviewSummary != [] {
      var summary := Header + Join(reviewSummary, Separator);
      summary := summary + Footer(reviewer.model);
      posted := Some(summary);
    } else {
      posted := None;
    }
  }

  /**
   * The three gates: a file yields a review exactly when it is not excluded,
   * not removed, its diff is not blank and the completion is not blank; the
   * review is then the stripped completion.
   */
  lemma ReviewOfGates(f: FileInfo, patterns: seq<string>, ai: (string, string) -> Option<string>)
    ensures ReviewOf(f, patterns, ai).Some? <==>
              && !Excluded(f.filename, patterns)
              && f.status != "removed"
              && !IsBlank(Diff(f))
              && ai(f.filename, Diff(f)).Some?
              && !IsBlank(ai(f.filename, Diff(f)).value)
    ensures ReviewOf(f, patterns, ai).Some? ==>
              ReviewOf(f, patterns, ai).value == Review(f.filename, Strip(ai(f.filename, Diff(f)).value))
  {
  }

  /** Reviews of concatenated file lists are concatenated: sections keep the input file order. */
  /** One more file adds its review, if it has one, at the end. */
  lemma ReviewsStep(files: seq<FileInfo>, i: nat, patterns: seq<string>, ai: (string, string) -> Option<string>)
    requires i < |files|
    ensures Reviews(files[..i + 1], patterns, ai)
            == Reviews(files[..i], patterns, ai)
               + (match ReviewOf(files[i], patterns, ai) case Some(rv) => [rv] case None => [])
  {
    assert files[..i + 1] == files[..i] + [files[i]];
    ReviewsAppend(files[..i], [files[i]], patterns, ai);
  }

  /** The listings of one more review end in its filename and its section. */
  lemma ListingsAppend(rvs: seq<Review>, rv: Review)
    ensures Filenames(rvs + [rv]) == Filenames(rvs) + [rv.filename]
    ensures Sections(rvs + [rv]) == Sections(rvs) + [Section(rv)]
  {
    assert Filenames(rvs + [rv]) == Filenames(rvs) + [rv.filename];
    assert Sections(rvs + [rv]) == Sections(rvs) + [Section(rv)];
  }

  lemma ReviewsAppend(a: seq<FileInfo>, b: seq<FileInfo>, patterns: seq<string>,
                      ai: (string, string) -> Option<string>)
    ensures Reviews(a + b, patterns, ai) == Reviews(a, patterns, ai) + Reviews(b, patterns, ai)
  {
    FilterMapAppend(a, b, (f: FileInfo) => ReviewOf(f, patterns, ai));
  }

  /**
   * The reviews are exactly the files that pass the gates, in order: there is
   * an increasing choice of file indices that produced them, and every file
   * that passes is among those indices.
   */
  lemma ReviewsAreFilter(files: seq<FileInfo>, patterns: seq<string>, ai: (string, string) -> Option<string>)
    returns (idx: seq<nat>)
    ensures |idx| == |Reviews(files, patterns, ai)|
    ensures forall k :: 0 <= k < |idx| ==>
              idx[k] < |files| && ReviewOf(files[idx[k]], patterns, ai) == Some(Reviews(files, patterns, ai)[k])
    ensures forall k, l :: 0 <= k < l < |idx| ==> idx[k] < idx[l]
    ensures forall j :: 0 <= j < |files| && ReviewOf(files[j], patterns, ai).Some? ==> j in idx
  {
    idx := FilterMapPositions(files, (f: FileInfo) => ReviewOf(f, patterns, ai));
  }

  /** More exclude patterns never produce more reviews. */
  lemma MorePatternsFewerReviews(files: seq<FileInfo>, ps: seq<string>, qs: seq<string>,
                                 ai: (string, string) -> Option<string>)
    ensures |Reviews(files, ps + qs, ai)| <= |Reviews(files, ps, ai)|
  {
    forall f: FileInfo | ReviewOf(f, ps + qs, ai).Some? ensures ReviewOf(f, ps, ai).Some? {
      ExcludedGrows(f.filename, ps, qs);
    }
    FilterMapFewer(files, (f: FileInfo) => ReviewOf(f, ps + qs, ai), (f: FileInfo) => ReviewOf(f, ps, ai));
  }

  /** With a catch-all `**\/` pattern no file is reviewed and nothing is posted. */
  lemma CatchAllPostsNothing(files: seq<FileInfo>, patterns: seq<string>,
                             ai: (string, string) -> Option<string>, model: string)
    requires "**/" in patterns
    ensures Reviews(files, patterns, ai) == []
    ensures PostedBody(Reviews(files, patterns, ai), model) == None
  {
    var k :| 0 <= k < |patterns| && patterns[k] == "**/";
    forall j | 0 <= j < |files| ensures ReviewOf(files[j], patterns, ai).None? {
      DoubleStarAloneExcludesAll(files[j].filename);
    }
    FilterMapNone(files, (f: FileInfo) => ReviewOf(f, patterns, ai));
  }

  /** A single review is posted as header, its section, and the footer naming the model. */
  lemma SummaryOfOne(rv: Review, model: string)
    ensures PostedBody([rv], model) == Some("## AI Code Review\n\n### " + rv.filename + "\n\n" + rv.text
                                            + "\n\n---\n*Reviewed by " + model + "*")
  {
    var body := Header + Section(rv) + Footer(model);
    assert body == "## AI Code Review\n\n### " + rv.filename + "\n\n" + rv.text + "\n\n---\n*Reviewed by " + model + "*" by {
      assert Header + "### " == "## AI Code Review\n\n### ";
    }
    assert PostedBody([rv], model) == Some(body) by {
      assert Sections([rv]) == [Section(rv)];
      assert Join([Section(rv)], Separator) == Section(rv);
    }
  }

  /** Each further review adds a separator and its section just before the footer. */
  lemma SummaryAppend(rvs: seq<Review>, rv: Review, model: string)
    requires rvs != []
    ensures PostedBody(rvs + [rv], model) ==
              Some(Header + Join(Sections(rvs), Separator) + "\n\n---\n\n" + Section(rv) + Footer(model))
  {
    assert Sections(rvs + [rv]) == Sections(rvs) + [Section(rv)];
    JoinAppend(Sections(rvs), Section(rv), Separator);
    var joined := Join(Sections(rvs), Separator);
    assert Header + (joined + Separator + Section(rv)) + Footer(model)
        == Header + joined + Separator + Section(rv) + Footer(model);
  }
}
