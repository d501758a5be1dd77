/**
 * The results screen's scoring effect and what the screen shows
 * (src/App.js:73-125): the guard at line 80, the pipeline of lines 82-109,
 * the state it stores at line 111, and the empty-state message of line 118.
 */
module Results {
  import opened Tokenizer
  import opened Scorer
  import opened Ranker

  datatype Option<T> = None | Some(value: T)

  /** The ranked list the effect computes, or None when the guard at line 80
      returns early: no resumes, or no job-description file. */
  function Ranking(resumes: seq<UploadedFile>, jdFile: Option<UploadedFile>): (r: Option<seq<ScoredResume>>)
    ensures r.None? <==> |resumes| == 0 || jdFile.None?
    ensures r.Some? ==> |r.value| == |resumes|
  {
    if |resumes| == 0 || jdFile.None? then None
    else Some(SortByScore(ScoreAll(Keywords(jdFile.value), resumes)))
  }

  /** The effect's computation: tokenize the job description, score every
      resume, and sort the fresh array in place. The result has one record per
      resume and the same names, ordered by non-increasing score, with ties
      in upload order. */
  method ScoreResumes(resumes: seq<UploadedFile>, jdFile: Option<UploadedFile>)
    returns (scored: Option<seq<ScoredResume>>)
    ensures scored == Ranking(resumes, jdFile)
    ensures scored.None? <==> |resumes| == 0 || jdFile.None?
    ensures scored.Some? ==>
      && |scored.value| == |resumes|
      && multiset(Names(scored.value)) == multiset(Names(ScoreAll(Keywords(jdFile.value), resumes)))
      && SortedByScore(scored.value)
      && SameTies(scored.value, ScoreAll(Keywords(jdFile.value), resumes))
  {
    if |resumes| == 0 || jdFile.None? {
      return None;
    }
    var jdKeywords := Keywords(jdFile.value);
    var mapped := ScoreAll(jdKeywords, resumes);
    var a := new ScoredResume[|mapped|](i requires 0 <= i < |mapped| => mapped[i]);
    assert a[..] == mapped;
    SortInPlace(a);
    SortByScoreNames(mapped);
    scored := Some(a[..]);
  }

  /** The names of the mapped records are the uploaded names, in upload order. */
  function FileNames(files: seq<UploadedFile>): (r: seq<string>)
    ensures |r| == |files|
  {
    seq(|files|, i requires 0 <= i < |files| => files[i].name)
  }

  lemma ScoreAllNames(jdKeywords: seq<string>, resumes: seq<UploadedFile>)
    ensures Names(ScoreAll(jdKeywords, resumes)) == FileNames(resumes)
  {
  }

  predicate ScoresInRange(s: seq<ScoredResume>) {
    forall i :: 0 <= i < |s| ==> 50 <= s[i].score <= 100
  }

  /** Every sorted record keeps a score in [50, 100]. */
  lemma SortedScoresInRange(jdKeywords: seq<string>, resumes: seq<UploadedFile>)
    ensures ScoresInRange(SortByScore(ScoreAll(jdKeywords, resumes)))
  {
    var mapped := ScoreAll(jdKeywords, resumes);
    var sorted := SortByScore(mapped);
    SortByScoreMembers(mapped);
    forall i | 0 <= i < |sorted| ensures 50 <= sorted[i].score <= 100 {
      assert sorted[i] in mapped;
    }
  }

  /** Invariant of the results: one entry per uploaded resume, none dropped
      or duplicated, every score in [50, 100], sorted by non-increasing
      score. */
  lemma RankingInvariant(resumes: seq<UploadedFile>, jdFile: UploadedFile)
    requires |resumes| > 0
    ensures var r := Ranking(resumes, Some(jdFile));
      && r.Some?
      && |r.value| == |resumes|
      && multiset(Names(r.value)) == multiset(FileNames(resumes))
      && SortedByScore(r.value)
      && ScoresInRange(r.value)
  {
    var keywords := Keywords(jdFile);
    var mapped := ScoreAll(keywords, resumes);
    assert Ranking(resumes, Some(jdFile)) == Some(SortByScore(mapped));
    SortByScoreNames(mapped);
    ScoreAllNames(keywords, resumes);
    SortByScoreSorted(mapped);
    SortedScoresInRange(keywords, resumes);
  }

  /** `scoredResumes` once the effect has run: the new ranking, or the
      previous value when the guard returns early (initially `[]`). */
  function StateAfterEffect(previous: seq<ScoredResume>, resumes: seq<UploadedFile>,
                            jdFile: Option<UploadedFile>): (s: seq<ScoredResume>)
    ensures |resumes| == 0 || jdFile.None? ==> s == previous
    ensures |resumes| > 0 && jdFile.Some? ==> s == Ranking(resumes, jdFile).value
  {
    match Ranking(resumes, jdFile)
    case None => previous
    case Some(ranked) => ranked
  }

  /** Once the effect has run with resumes and a job description, the state
      holds one record per resume, the uploaded names, in-range scores, sorted
      by non-increasing score with ties in upload order. */
  lemma StateAfterEffectRanked(previous: seq<ScoredResume>, resumes: seq<UploadedFile>,
                               jdFile: UploadedFile)
    requires |resumes| > 0
    ensures var s := StateAfterEffect(previous, resumes, Some(jdFile));
      && |s| == |resumes|
      && multiset(Names(s)) == multiset(FileNames(resumes))
      && SortedByScore(s)
      && ScoresInRange(s)
      && SameTies(s, ScoreAll(Keywords(jdFile), resumes))
  {
    RankingInvariant(resumes, jdFile);
    SortByScoreStable(ScoreAll(Keywords(jdFile), resumes));
  }

  /** What the results screen renders. */
  datatype Page = NoResumesMessage | RankingTable(rows: seq<RankedResult>)

  function ResultsPage(resumes: seq<UploadedFile>, scoredResumes: seq<ScoredResume>): (p: Page)
    ensures p.NoResumesMessage? <==> |resumes| == 0
  {
    if |resumes| == 0 then NoResumesMessage else RankingTable(Rows(scoredResumes))
  }

  /** With resumes present but the job description missing, nothing is
      scored: the screen shows a table with no rows, not the empty-state
      message. */
  lemma MissingJobDescriptionShowsEmptyTable(resumes: seq<UploadedFile>)
    requires |resumes| > 0
    ensures ResultsPage(resumes, StateAfterEffect([], resumes, None)) == RankingTable([])
  {
  }

  // ---------------------------------------------------------------------------
  // Worked scenarios
  // ---------------------------------------------------------------------------

  /** Words of lower-case ASCII letters only. */
  predicate LowerLetters(w: string) {
    forall k :: 0 <= k < |w| ==> 'a' <= w[k] <= 'z'
  }

  /** Non-empty lower-case words joined by one separator and followed by a
      `.pdf` extension tokenize back to those words. */
  lemma TokenizeLowerWords(toks: seq<string>, sep: char, ext: string)
    requires |toks| >= 1 && forall i :: 0 <= i < |toks| ==> toks[i] != "" && LowerLetters(toks[i])
    requires IsSeparator(sep) && |ext| == 4 && ToLower(ext) == PdfExtension
    ensures Tokenize(Join(toks, sep) + ext) == toks
  {
    forall i | 0 <= i < |toks| ensures NoSeparator(toks[i]) && NoAsciiUpper(toks[i]) {
      assert LowerLetters(toks[i]);
    }
    TokenizeJoined(toks, sep, ext);
  }

  lemma JoinTwo(a: string, b: string, sep: char)
    ensures Join([a, b], sep) == a + [sep] + b
  {
    assert [a, b][1..] == [b];
  }

  lemma JoinThree(a: string, b: string, c: string, sep: char)
    ensures Join([a, b, c], sep) == a + [sep] + b + [sep] + c
  {
    assert [a, b, c][1..] == [b, c];
    JoinTwo(b, c, sep);
  }

  lemma PdfIsPdf()
    ensures |".pdf"| == 4 && ToLower(".pdf") == PdfExtension
  {
  }

  /** `"backend-engineer.pdf"` gives the keywords `backend` and `engineer`. */
  lemma JobDescriptionKeywords()
    ensures Tokenize("backend-engineer.pdf") == ["backend", "engineer"]
  {
    var toks: seq<string> := ["backend", "engineer"];
    JoinTwo("backend", "engineer", '-');
    assert "backend" + "-" + "engineer" + ".pdf" == "backend-engineer.pdf";
    assert LowerLetters("backend") && LowerLetters("engineer");
    PdfIsPdf();
    TokenizeLowerWords(toks, '-', ".pdf");
  }

  lemma ResumeKeywords()
    ensures Tokenize("backend_engineer_resume.pdf") == ["backend", "engineer", "resume"]
  {
    var toks: seq<string> := ["backend", "engineer", "resume"];
    JoinThree("backend", "engineer", "resume", '_');
    assert "backend" + "_" + "engineer" + "_" + "resume" + ".pdf" == "backend_engineer_resume.pdf";
    assert LowerLetters("backend") && LowerLetters("engineer") && LowerLetters("resume");
    PdfIsPdf();
    TokenizeLowerWords(toks, '_', ".pdf");
  }

  lemma RandomCvKeywords()
    ensures Tokenize("random_cv.pdf") == ["random", "cv"]
  {
    var toks: seq<string> := ["random", "cv"];
    JoinTwo("random", "cv", '_');
    assert "random" + "_" + "cv" + ".pdf" == "random_cv.pdf";
    assert LowerLetters("random") && LowerLetters("cv");
    PdfIsPdf();
    TokenizeLowerWords(toks, '_', ".pdf");
  }

  /** Two of the three resume tokens occur among the job description's. */
  lemma TwoKeywordsMatch()
    ensures MatchCount(["backend", "engineer"], ["backend", "engineer", "resume"]) == 2
  {
    var jd: seq<string> := ["backend", "engineer"];
    var res: seq<string> := ["backend", "engineer", "resume"];
    assert res[1..] == ["engineer", "resume"] && res[2..] == ["resume"];
    assert "resume" !in jd;
    assert Hits(jd, res) == ["backend", "engineer"];
  }

  /** `backend_engineer_resume.pdf` against `backend-engineer.pdf`: two
      matches, score 70, "Good match. Add more relevant keywords." */
  lemma ScenarioGoodMatch()
    ensures ScoreResume(Keywords(UploadedFile("backend-engineer.pdf", 0)),
                        UploadedFile("backend_engineer_resume.pdf", 1))
         == ScoredResume("backend_engineer_resume.pdf", 70, ObjectUrl(1), GoodMatch)
  {
    JobDescriptionKeywords();
    ResumeKeywords();
    TwoKeywordsMatch();
    ScoreBounds(2);
  }

  /** `random_cv.pdf` against `backend-engineer.pdf`: no match, score 50,
      "Consider tailoring your resume to the job title." */
  lemma ScenarioNoMatch()
    ensures ScoreResume(Keywords(UploadedFile("backend-engineer.pdf", 0)),
                        UploadedFile("random_cv.pdf", 2))
         == ScoredResume("random_cv.pdf", 50, ObjectUrl(2), TailorResume)
  {
    JobDescriptionKeywords();
    RandomCvKeywords();
    MatchCountBounds(["backend", "engineer"], ["random", "cv"]);
    ScoreBounds(0);
  }

  /** Five or more matching tokens saturate the score at 100: "Excellent
      match!". */
  lemma ScenarioSaturated(jdKeywords: seq<string>, resume: UploadedFile)
    requires MatchCount(jdKeywords, Tokenize(resume.name)) >= 5
    ensures ScoreResume(jdKeywords, resume).score == 100
    ensures ScoreResume(jdKeywords, resume).suggestion == ExcellentMatch
  {
    ScoreBounds(MatchCount(jdKeywords, Tokenize(resume.name)));
  }

  /** Two resumes with the same score, uploaded in the order R1, R2, stay in
      that order: R1 gets rank 1 (gold) and R2 rank 2 (silver). */
  lemma EqualScoresKeepUploadOrder(r1: ScoredResume, r2: ScoredResume)
    requires r1.score == r2.score
    ensures SortByScore([r1, r2]) == [r1, r2]
    ensures Rows(SortByScore([r1, r2])) == [RankedResult(Gold, r1), RankedResult(Silver, r2)]
  {
    assert [r1, r2][..1] == [r1];
    assert [r1][..0] == [];
  }
}
