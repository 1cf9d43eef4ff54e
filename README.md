# Resume matcher: text normalisation, skill gap and ranking

This project models the core of a Django resume-matching application. A
logged-in user posts a job description and uploads several resumes. For each
resume the `matcher` view computes three things:

- a similarity score against the job description;
- the catalog skills that the job description mentions and the resume lacks;
- a record with the file name, the score and the rendered skill gap.

The view then ranks the records by descending score. A template filter,
`get_item`, looks up a dictionary entry and shows `N/A` when the key is
missing.

Modules:

- `Normalizer` (`normalizer.dfy`): `clean_text`, written out in three steps.
  The text is lower-cased, each non-word character becomes a space, and runs
  of whitespace become one space. The model works over ASCII. It proves the
  character class of the output, that it has no double spaces, that word
  characters keep their order, what happens at the ends (no trimming), the
  fixed points, and idempotence.
- `SkillGap` (`skill_gap.dfy`): the two skill comprehensions, the set
  difference, and the `', '.join(...)` / `'None'` rendering. Skill detection is
  substring containment (`skill in text`) with no word boundaries. The skill
  catalog is a parameter.
- `Ranking` (`ranking.dfy`): the result record and Python's
  `sorted(..., key=score, reverse=True)`. The sort is an insertion sort. It is
  proved to return a permutation, with scores that never increase, and with
  tied records kept in their input order. It is also proved to be the only
  arrangement with those properties.
- `Matcher` (`matcher.dfy`): the view's loop. A method appends one record per
  upload and then sorts. Its contract ties the result to the specification
  functions above.
- `CustomTags` (`custom_tags.dfy`): `get_item`.

`clean_text` (matcher/views.py:29-33) never calls `strip()`, so a leading or
trailing space survives it: see `Normalizer.CleanTextEnds`.

## Model

| member | source | states |
|---|---|---|
| Normalizer.LowerChar | matcher/views.py:30 | an upper-case letter becomes the same letter in lower case, every other character is unchanged, and the result is never upper case and is a word character exactly when the input was |
| Normalizer.CleanTextChars | matcher/views.py:30-31 | every output character is a lower-case letter, a digit, `_` or a space; none is upper case |
| Normalizer.CollapseShape | matcher/views.py:32 | collapsing whitespace never lengthens the text, keeps its first and last character (as a space if it was whitespace), and leaves no two adjacent spaces |
| Normalizer.CleanTextIsClean | matcher/views.py:29-33 | the output has only clean characters and never two consecutive spaces |
| Normalizer.WordCharsPreserved | matcher/views.py:29-33 | deleting the spaces from the output gives the lower-cased input with its non-word characters removed, in order |
| Normalizer.CleanTextEnds | matcher/views.py:29-33 | no trimming: an input that starts (ends) with a non-word character gives output that starts (ends) with exactly one space; a word character at either end is kept, lower-cased |
| Normalizer.CleanTextFixedPoint | matcher/views.py:29-33 | a text is left unchanged exactly when it has only clean characters and no double space |
| Normalizer.CleanTextIdempotent | matcher/views.py:29-33 | cleaning twice gives the same text as cleaning once |
| Normalizer.CleanTextAppend | matcher/views.py:29-33 | cleaning can be done piecewise at any cut next to a word character |
| Normalizer.CleanTextWord | matcher/views.py:30-31 | a stretch of word characters only gets lower-cased |
| Normalizer.CleanTextSeparator | matcher/views.py:31-32 | a non-empty stretch of non-word characters becomes exactly one space |
| Normalizer.CleanTextExample | matcher/views.py:29-33 | `C++  & Java-Script!` becomes `c java script `, with the trailing space kept |
| SkillGap.ContainsIff | matcher/views.py:244-245 | `skill in text` holds exactly when the skill occurs contiguously at some position of the text |
| SkillGap.DetectableSkillsAreClean | matcher/views.py:244-245 | a skill found in cleaned text is itself clean, so catalog entries with punctuation or upper case are never detected |
| SkillGap.NoWordBoundaries | matcher/views.py:244 | `java` is detected inside `javascript` |
| SkillGap.Detected | matcher/views.py:244-245 | the detected skills are exactly the catalog skills contained in the text |
| SkillGap.MissingSet | matcher/views.py:246 | a skill is missing exactly when it is in the catalog, contained in the job text and not contained in the resume text |
| SkillGap.Dedup | matcher/views.py:246 | listing a collection keeps exactly its members, each once |
| SkillGap.Without | matcher/views.py:246 | the remaining entries are those of the first list that are not in the second |
| SkillGap.Difference | matcher/views.py:246 | the listed difference has no duplicates and holds exactly the job skills that are not resume skills |
| SkillGap.MissingSkills | matcher/views.py:244-246 | the missing-skills list has no duplicates and holds exactly the members of the missing set |
| SkillGap.MissingSkillsEmptyIff | matcher/views.py:246-247 | the list is empty exactly when the missing set is empty |
| SkillGap.SplitJoin | matcher/views.py:247 | splitting `', '.join(parts)` at `, ` gives back the parts, when none contains a comma |
| SkillGap.RenderSplit | matcher/views.py:246-247 | a non-empty gap renders as a text that splits at `, ` into exactly the missing skills, each once |
| SkillGap.RenderNoneIffNoGap | matcher/views.py:246-247 | for a job text without upper case (every cleaned text), the rendered gap is `None` exactly when no skill is missing |
| SkillGap.MissingSubsets | matcher/views.py:244-246 | the missing set is a subset of the catalog and of the job skills |
| SkillGap.NoGapCases | matcher/views.py:244-247 | a resume identical to the job text, or an empty catalog, gives an empty gap rendered as `None` |
| SkillGap.EmptyResumeGap | matcher/views.py:244-246 | against an empty resume, every non-empty catalog skill of the job text is missing |
| SkillGap.SubstringCaveat | matcher/views.py:244-246 | a resume mentioning only `javascript` is not missing `java` |
| Ranking.WithScoreMembers | matcher/views.py:264 | selecting by a score keeps exactly the records with that score |
| Ranking.InsertPermutes | matcher/views.py:264 | an insertion step adds exactly one occurrence of the inserted record |
| Ranking.InsertSorted | matcher/views.py:264 | an insertion step keeps a list sorted by descending score |
| Ranking.InsertWithScore | matcher/views.py:264 | an inserted record goes in front of the records with its own score |
| Ranking.SortPermutes | matcher/views.py:264 | the sorted list is a permutation of the appended records |
| Ranking.SortSorted | matcher/views.py:264 | scores never increase along the sorted list |
| Ranking.SortStable | matcher/views.py:264 | for every score, records with that score keep their upload order |
| Ranking.SortedStableUnique | matcher/views.py:264 | two lists sorted by descending score that are stable with respect to each other are equal, so the sort agrees with any stable descending sort |
| Ranking.RankingExample | matcher/views.py:264 | scores 40, 90, 90, 10 in upload order come out as the two 90s in upload order, then 40, then 10 |
| Matcher.BatchSnoc | matcher/views.py:234-262 | each loop iteration appends the record for the current file after those of the earlier files |
| Matcher.BatchRecords | matcher/views.py:228-261 | one record per uploaded file in upload order, with that file's name and score, and with missing skills `None` exactly when that resume lacks no job skill, and otherwise a text that splits at `, ` into exactly the missing skills, each once |
| Matcher.Matcher | matcher/views.py:228-264 | the result is the stable descending sort of the appended records: one per upload, a permutation of them, scores never increase, ties keep upload order |
| CustomTags.GetItem | matcher/templatetags/custom_tags.py:8-10 | a present key gives its value, a missing key gives `N/A`, and the result is always a stored value or `N/A` |
| CustomTags.GetItemNotAvailable | matcher/templatetags/custom_tags.py:10 | `N/A` is shown exactly when the key is missing or is mapped to `N/A` |

## Left out

- TF-IDF vectorisation, cosine similarity and rounding to two decimals (matcher/views.py:239-242). These are floating-point numerics inside scikit-learn. The score is an integer number of hundredths, given by a function parameter `similarity`.
- `extract_text_from_pdf` (matcher/views.py:36-41). It is PDF parsing by PyPDF2. Each upload carries its extracted text.
- Failures during the loop. The model covers only the run in which every PDF extraction (matcher/views.py:235, `PdfReader` at :37) and every TF-IDF fit and score (:239-242) succeeds. The code has no `try`/`except` around them. An upload that is not a valid PDF, or a pair of texts without a single token (an empty vocabulary), raises an exception. That exception aborts the whole request, and no ranked list comes back. Records that `Match.objects.create` saved for earlier files stay saved. The code does not isolate a failure to one document. So "one record per upload" (`Matcher.BatchRecords`, `Matcher.Matcher`) holds only when every file succeeds.
- `Match.objects.create` (matcher/views.py:250-255) and all other database access. Its fields equal the fields of the appended record.
- The GET branch of `matcher` (where `results` stays `None`), reading the request, and rendering the template. These are web framework I/O.
- `generate_otp`, and the authentication, OTP, session and email views. These involve randomness, sessions and mail.
- `matcher/models.py`, `urls.py`, `forms.py`, `admin.py` and `apps.py`. They hold declarations only.
- `matcher/skill_set.py` is not part of this model. The skill catalog is a parameter.
- Non-ASCII text. Python's `lower()`, `\w` and `\s` follow Unicode. The model treats every non-ASCII character as a non-word character and lower-cases only `A`-`Z`.
- The order of the missing skills. Python lists a set in an unspecified order. The model happens to use order of first occurrence in the catalog. The contract of `SkillGap.MissingSkills` promises exactly what Python does: each member of the gap, once.
- SkillGap.RenderNoneIffNoGap: it requires a job text without upper-case letters. Without that, a catalog entry `None` found in the job text would render as `None` even though the gap is not empty. Every cleaned text meets the requirement.
- CustomTags.GetItem: the dictionary values are modelled as the strings that the template shows.
