/**
 * Scoring of one resume against the job description (src/App.js:87-108):
 * the keyword matches, the capped score, the suggestion label, and the
 * record that `resumes.map(...)` builds for each uploaded file.
 */
module Scorer {
  import opened Tokenizer

  /** An uploaded file. Only its name takes part in scoring; `id` stands for
      the identity of the browser's File object (its bytes are not modelled). */
  datatype UploadedFile = UploadedFile(name: string, id: nat)

  /** The object URL that `URL.createObjectURL` hands out for a file, kept as
      an opaque handle on that file. */
  datatype Link = ObjectUrl(file: nat)

  /** One row of the results, as built at src/App.js:98-108. */
  datatype ScoredResume = ScoredResume(name: string, score: int, link: Link, suggestion: string)

  // ---------------------------------------------------------------------------
  // matchCount
  // ---------------------------------------------------------------------------

  /** The resume tokens, in order and with repeats, that occur anywhere in
      the job description's token list. */
  function Hits(jd: seq<string>, res: seq<string>): (r: seq<string>)
    ensures |r| <= |res|
  {
    if res == [] then []
    else (if res[0] in jd then [res[0]] else []) + Hits(jd, res[1..])
  }

  /** The filter keeps every occurrence of a resume token that the job
      description contains, and nothing else: a word is kept as often as the
      resume holds it, however often the job description does. */
  lemma {:induction false} HitsCounts(jd: seq<string>, res: seq<string>)
    ensures forall w :: multiset(Hits(jd, res))[w] == if w in jd then multiset(res)[w] else 0
  {
    if res != [] {
      assert res == [res[0]] + res[1..];
      HitsCounts(jd, res[1..]);
    }
  }

  /** The number of resume tokens that the job description contains. */
  function MatchCount(jd: seq<string>, res: seq<string>): (n: nat)
    ensures n <= |res|
  {
    |Hits(jd, res)|
  }

  /** Match count bounds: between zero and the number of resume tokens; every
      token counts when all of them occur in the job description, and the
      count is zero exactly when none does. */
  lemma {:induction false} MatchCountBounds(jd: seq<string>, res: seq<string>)
    ensures 0 <= MatchCount(jd, res) <= |res|
    ensures MatchCount(jd, res) == |res| <==> forall i :: 0 <= i < |res| ==> res[i] in jd
    ensures MatchCount(jd, res) == 0 <==> forall i :: 0 <= i < |res| ==> res[i] !in jd
  {
    if res != [] {
      var tail := res[1..];
      MatchCountBounds(jd, tail);
      var h := if res[0] in jd then [res[0]] else [];
      assert Hits(jd, res) == h + Hits(jd, tail);
      assert MatchCount(jd, res) == |h| + MatchCount(jd, tail);
      assert (forall i :: 0 <= i < |res| ==> res[i] in jd)
        <==> res[0] in jd && (forall i :: 0 <= i < |tail| ==> tail[i] in jd) by {
        assert forall i :: 0 <= i < |tail| ==> tail[i] == res[i + 1];
      }
      assert (forall i :: 0 <= i < |res| ==> res[i] !in jd)
        <==> res[0] !in jd && (forall i :: 0 <= i < |tail| ==> tail[i] !in jd) by {
        assert forall i :: 0 <= i < |tail| ==> tail[i] == res[i + 1];
      }
    }
  }

  /** The count is additive over the resume's tokens. */
  lemma {:induction false} MatchCountAppend(jd: seq<string>, a: seq<string>, b: seq<string>)
    ensures MatchCount(jd, a + b) == MatchCount(jd, a) + MatchCount(jd, b)
  {
    var ha, hb, hab := Hits(jd, a), Hits(jd, b), Hits(jd, a + b);
    HitsCounts(jd, a);
    HitsCounts(jd, b);
    HitsCounts(jd, a + b);
    assert multiset(hab) == multiset(ha) + multiset(hb) by {
      forall w ensures multiset(hab)[w] == (multiset(ha) + multiset(hb))[w] {
        assert multiset(a + b) == multiset(a) + multiset(b);
      }
    }
    assert |multiset(hab)| == |hab|;
  }

  /** Membership, not multiset matching: only WHICH words the job description
      contains matters, not how often. */
  lemma MatchCountOnlyMembership(jd1: seq<string>, jd2: seq<string>, res: seq<string>)
    requires forall w :: w in jd1 <==> w in jd2
    ensures MatchCount(jd1, res) == MatchCount(jd2, res)
  {
    var h1, h2 := Hits(jd1, res), Hits(jd2, res);
    HitsCounts(jd1, res);
    HitsCounts(jd2, res);
    assert multiset(h1) == multiset(h2) by {
      forall w ensures multiset(h1)[w] == multiset(h2)[w] { }
    }
    assert |multiset(h1)| == |h1| && |multiset(h2)| == |h2|;
  }

  /** A repeated resume token counts every time: `k` copies of one job
      description word give `k` matches. */
  lemma {:induction false} MatchCountRepeats(jd: seq<string>, w: string, k: nat)
    requires w in jd
    ensures MatchCount(jd, seq(k, _ => w)) == k
  {
    var res := seq(k, _ => w);
    MatchCountBounds(jd, res);
  }

  // ---------------------------------------------------------------------------
  // score
  // ---------------------------------------------------------------------------

  const BaseScore: int := 50
  const PointsPerMatch: int := 10
  const MaxScore: int := 100

  /** The smaller of two integers. */
  function Min(a: int, b: int): (m: int)
    ensures m <= a && m <= b
    ensures m == a || m == b
  {
    if a <= b then a else b
  }

  /** Fifty points, ten more per match, capped at one hundred. */
  function Score(matchCount: nat): (score: int)
    ensures 50 <= score <= 100
    ensures score == 100 <==> matchCount >= 5
    ensures matchCount < 5 ==> score == 50 + 10 * matchCount
  {
    Min(MaxScore, BaseScore + matchCount * PointsPerMatch)
  }

  /** Score formula and bounds: 50 for no match, ten more per match, capped
      at 100, which is reached exactly from five matches on; always a
      multiple of ten. */
  lemma ScoreBounds(matchCount: nat)
    ensures 50 <= Score(matchCount) <= 100
    ensures Score(matchCount) % 10 == 0
    ensures Score(matchCount) == 100 <==> matchCount >= 5
    ensures matchCount < 5 ==> Score(matchCount) == 50 + 10 * matchCount
    ensures matchCount == 0 ==> Score(matchCount) == 50
  {
  }

  /** The score never decreases as the match count grows. */
  lemma ScoreMonotone(m1: nat, m2: nat)
    requires m1 <= m2
    ensures Score(m1) <= Score(m2)
    ensures m2 < 5 && m1 < m2 ==> Score(m1) < Score(m2)
  {
  }

  // ---------------------------------------------------------------------------
  // suggestion
  // ---------------------------------------------------------------------------

  const ExcellentMatch: string := "Excellent match!"
  const GoodMatch: string := "Good match. Add more relevant keywords."
  const TailorResume: string := "Consider tailoring your resume to the job title."

  /** The nested conditional of src/App.js:102-107: thresholds 90 and 70. The
      three labels are distinct, so each score gets exactly one of them. */
  function Suggestion(score: int): (s: string)
    ensures s in {ExcellentMatch, GoodMatch, TailorResume}
    ensures s == ExcellentMatch <==> score >= 90
    ensures s == GoodMatch <==> 70 <= score < 90
    ensures s == TailorResume <==> score < 70
  {
    if score >= 90 then ExcellentMatch
    else if score >= 70 then GoodMatch
    else TailorResume
  }

  /** Composing score and suggestion: four or more matches give "Excellent
      match!", two or three give "Good match…", fewer give "Consider
      tailoring…". */
  lemma SuggestionByMatchCount(matchCount: nat)
    ensures Suggestion(Score(matchCount)) == ExcellentMatch <==> matchCount >= 4
    ensures Suggestion(Score(matchCount)) == GoodMatch <==> 2 <= matchCount <= 3
    ensures Suggestion(Score(matchCount)) == TailorResume <==> matchCount <= 1
  {
    ScoreBounds(matchCount);
  }

  // ---------------------------------------------------------------------------
  // The record built for each resume
  // ---------------------------------------------------------------------------

  /** The job description's keywords (src/App.js:82-85). */
  function Keywords(jdFile: UploadedFile): (toks: seq<string>)
    ensures |toks| >= 1
  {
    Tokenize(jdFile.name)
  }

  /** The body of the `resumes.map` callback (src/App.js:88-108). */
  function ScoreResume(jdKeywords: seq<string>, resume: UploadedFile): (r: ScoredResume)
    ensures r.name == resume.name && r.link == ObjectUrl(resume.id)
    ensures 50 <= r.score <= 100
    ensures r.score == Score(MatchCount(jdKeywords, Tokenize(resume.name)))
    ensures r.suggestion == Suggestion(r.score)
  {
    var matchCount := MatchCount(jdKeywords, Tokenize(resume.name));
    ScoreBounds(matchCount);
    var score := Score(matchCount);
    ScoredResume(resume.name, score, ObjectUrl(resume.id), Suggestion(score))
  }

  /** `resumes.map(...)`: one record per uploaded resume, in upload order. */
  function ScoreAll(jdKeywords: seq<string>, resumes: seq<UploadedFile>): (rs: seq<ScoredResume>)
    ensures |rs| == |resumes|
    ensures forall i :: 0 <= i < |resumes| ==> rs[i] == ScoreResume(jdKeywords, resumes[i])
  {
    seq(|resumes|, i requires 0 <= i < |resumes| => ScoreResume(jdKeywords, resumes[i]))
  }

  /** An empty job-description keyword list matches nothing: every resume
      gets the base score and the lowest label. */
  lemma NoKeywordsNoMatch(resume: UploadedFile)
    ensures ScoreResume([], resume).score == 50
    ensures ScoreResume([], resume).suggestion == TailorResume
  {
    MatchCountBounds([], Tokenize(resume.name));
  }
}
