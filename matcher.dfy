/** The POST branch of the `matcher` view: normalise the job description once,
    append one result record per uploaded resume (its name, its similarity
    score and its rendered skill gap), then rank the records by descending
    score with a stable sort.

    The similarity score (TF-IDF vectors and their cosine, rounded to two
    decimals) is a parameter: a function from the cleaned resume text and the
    cleaned job text to a score in hundredths of a percent.  Each upload
    carries the text already extracted from its PDF.
 */
module Matcher {
  import opened Normalizer
  import opened SkillGap
  import opened Ranking

  /** An uploaded resume: its file name and the text extracted from it. */
  datatype Upload = Upload(name: string, text: string)

  /** The record the loop appends for one uploaded file. */
  function ResultFor(jobClean: string, file: Upload, catalog: seq<string>,
                     similarity: (string, string) -> int): MatchResult
  {
    var resumeClean := CleanText(file.text);
    MatchResult(file.name, similarity(resumeClean, jobClean),
                Render(MissingSkills(catalog, jobClean, resumeClean)))
  }

  /** The records appended for `files`, in upload order. */
  function Batch(jobClean: string, files: seq<Upload>, catalog: seq<string>,
                 similarity: (string, string) -> int): seq<MatchResult>
  {
    seq(|files|, j requires 0 <= j < |files| => ResultFor(jobClean, files[j], catalog, similarity))
  }

  /** Appending a file's record extends the batch of the files before it. */
  lemma BatchSnoc(jobClean: string, files: seq<Upload>, i: nat, catalog: seq<string>,
                  similarity: (string, string) -> int)
    requires i < |files|
    ensures Batch(jobClean, files[..i + 1], catalog, similarity)
         == Batch(jobClean, files[..i], catalog, similarity) + [ResultFor(jobClean, files[i], catalog, similarity)]
  {
  }

  /** One record per uploaded file, in upload order: it carries the file's
      name, the score of the file's cleaned text against the cleaned job text,
      and the literal `None` exactly when the file lacks no catalog skill of
      the job text; otherwise a text that splits at `, ` into exactly the
      missing skills, each once. */
  lemma BatchRecords(jobDescText: string, files: seq<Upload>, catalog: seq<string>,
                     similarity: (string, string) -> int)
    ensures var jobClean := CleanText(jobDescText);
      var b := Batch(jobClean, files, catalog, similarity);
      && |b| == |files|
      && (forall j :: 0 <= j < |files| ==>
            b[j].resumeName == files[j].name
            && b[j].similarityScore == similarity(CleanText(files[j].text), jobClean))
      && (forall j :: 0 <= j < |files| ==>
            (b[j].missingSkills == "None"
             <==> MissingSet(catalog, jobClean, CleanText(files[j].text)) == {}))
      && (forall j :: 0 <= j < |files| && b[j].missingSkills != "None" ==>
            Distinct(Split(b[j].missingSkills))
            && forall k :: k in Split(b[j].missingSkills)
                 <==> k in MissingSet(catalog, jobClean, CleanText(files[j].text)))
  {
    var jobClean := CleanText(jobDescText);
    var b := Batch(jobClean, files, catalog, similarity);
    CleanTextChars(jobDescText);
    forall j | 0 <= j < |files|
      ensures b[j].missingSkills == "None"
          <==> MissingSet(catalog, jobClean, CleanText(files[j].text)) == {}
      ensures b[j].missingSkills != "None" ==>
            Distinct(Split(b[j].missingSkills))
            && forall k :: k in Split(b[j].missingSkills)
                 <==> k in MissingSet(catalog, jobClean, CleanText(files[j].text))
    {
      var resumeClean := CleanText(files[j].text);
      RenderNoneIffNoGap(catalog, jobClean, resumeClean);
      if MissingSet(catalog, jobClean, resumeClean) != {} {
        RenderSplit(catalog, jobDescText, resumeClean);
      }
    }
  }

  /** The view's loop and sort.  The ranked list is the stable descending sort
      of the appended records: a permutation of them with non-increasing
      scores, in which records of equal score keep upload order. */
  method Matcher(jobDescText: string, uploadedFiles: seq<Upload>, catalog: seq<string>,
                 similarity: (string, string) -> int)
    returns (results: seq<MatchResult>)
    ensures results == SortByScoreDesc(Batch(CleanText(jobDescText), uploadedFiles, catalog, similarity))
    ensures |results| == |uploadedFiles|
    ensures multiset(results) == multiset(Batch(CleanText(jobDescText), uploadedFiles, catalog, similarity))
    ensures SortedDesc(results)
    ensures StableFor(Batch(CleanText(jobDescText), uploadedFiles, catalog, similarity), results)
  {
    var jobDescClean := CleanText(jobDescText);
    results := [];
    for i := 0 to |uploadedFiles|
      invariant results == Batch(jobDescClean, uploadedFiles[..i], catalog, similarity)
    {
      var file := uploadedFiles[i];
      var resumeClean := CleanText(file.text);
      var similarityScore := similarity(resumeClean, jobDescClean);
      var missingSkills := MissingSkills(catalog, jobDescClean, resumeClean);
      var missingSkillsStr := if missingSkills == [] then NoneText else Join(", ", missingSkills);
      results := results + [MatchResult(file.name, similarityScore, missingSkillsStr)];
      BatchSnoc(jobDescClean, uploadedFiles, i, catalog, similarity);
    }
    assert uploadedFiles[..|uploadedFiles|] == uploadedFiles;
    var appended := results;
    results := SortByScoreDesc(appended);
    SortPermutes(appended);
    SortSorted(appended);
    SortStable(appended);
    assert |results| == |appended| by {
      assert |multiset(results)| == |multiset(appended)|;
    }
  }
}
