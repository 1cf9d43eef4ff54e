/** Skill-gap analysis of the resume matcher: which catalog skills occur in the
    cleaned job description but not in the cleaned resume, and how that gap is
    rendered for display and storage.

    Detection is plain substring containment (Python's `skill in text`), with
    no word boundaries: `java` is detected inside `javascript`.
 */
module SkillGap {
  import opened Normalizer

  // ---------------------------------------------------------------------------
  // Substring containment
  // ---------------------------------------------------------------------------

  /** `skill in text`. */
  function Contains(text: string, skill: string): bool
  {
    if skill <= text then true
    else if text == [] then false
    else Contains(text[1..], skill)
  }

  /** `skill` occurs in `text` starting at position `i`. */
  ghost predicate OccursAt(text: string, skill: string, i: int)
  {
    0 <= i && i + |skill| <= |text| && text[i..i + |skill|] == skill
  }

  /** Containment means a contiguous occurrence somewhere in the text. */
  lemma {:induction false} ContainsIff(text: string, skill: string)
    ensures Contains(text, skill) <==> exists i :: OccursAt(text, skill, i)
  {
    if skill <= text {
      assert OccursAt(text, skill, 0);
    } else if text != [] {
      ContainsIff(text[1..], skill);
      if Contains(text[1..], skill) {
        var j :| OccursAt(text[1..], skill, j);
        assert text[1..][j..j + |skill|] == text[j + 1..j + 1 + |skill|];
        assert OccursAt(text, skill, j + 1);
      }
      if i :| OccursAt(text, skill, i) {
        assert i != 0;
        assert text[1..][i - 1..i - 1 + |skill|] == text[i..i + |skill|];
        assert OccursAt(text[1..], skill, i - 1);
      }
    }
  }

  /** Every character of a contained skill is a character of the text. */
  lemma ContainedChars(text: string, skill: string)
    requires Contains(text, skill)
    ensures forall c :: c in skill ==> c in text
  {
    ContainsIff(text, skill);
    var i :| OccursAt(text, skill, i);
    forall c | c in skill ensures c in text {
      var j :| 0 <= j < |skill| && skill[j] == c;
      assert text[i..i + |skill|][j] == text[i + j];
    }
  }

  /** A skill that is contained in normalised text is itself in normal form:
      a catalog entry with punctuation, upper case or a double space (such as
      `c++` or `node.js`) is never detected. */
  lemma DetectableSkillsAreClean(text: string, skill: string)
    requires Contains(CleanText(text), skill)
    ensures IsClean(skill)
  {
    var t := CleanText(text);
    CleanTextIsClean(text);
    ContainedChars(t, skill);
    ContainsIff(t, skill);
    var i :| OccursAt(t, skill, i);
    forall j | 0 <= j < |skill| - 1 ensures !(skill[j] == ' ' && skill[j + 1] == ' ') {
      assert skill[j] == t[i + j] && skill[j + 1] == t[i + j + 1];
    }
  }

  /** Substring matching has no word boundaries. */
  lemma NoWordBoundaries()
    ensures Contains("javascript", "java")
  {
    assert "java" <= "javascript";
  }

  // ---------------------------------------------------------------------------
  // Detected skills and the gap
  // ---------------------------------------------------------------------------

  /** `[skill for skill in catalog if skill in text]`. */
  function Detected(catalog: seq<string>, text: string): (r: seq<string>)
    ensures |r| <= |catalog|
    ensures forall k :: k in r <==> k in catalog && Contains(text, k)
  {
    if catalog == [] then []
    else if Contains(text, catalog[0]) then [catalog[0]] + Detected(catalog[1..], text)
    else Detected(catalog[1..], text)
  }

  /** `set(job_skills) - set(resume_skills)`. */
  function MissingSet(catalog: seq<string>, jobClean: string, resumeClean: string): (r: set<string>)
    ensures forall k :: k in r <==> k in catalog && Contains(jobClean, k) && !Contains(resumeClean, k)
  {
    (set k | k in Detected(catalog, jobClean)) - (set k | k in Detected(catalog, resumeClean))
  }

  predicate Distinct(xs: seq<string>)
  {
    forall i, j :: 0 <= i < j < |xs| ==> xs[i] != xs[j]
  }

  /** The elements of `xs`, each once, in order of first occurrence. */
  function Dedup(xs: seq<string>): (r: seq<string>)
    ensures Distinct(r)
    ensures forall k :: k in r <==> k in xs
  {
    if xs == [] then []
    else
      var rest := Dedup(xs[..|xs| - 1]);
      assert forall k :: k in xs <==> k in xs[..|xs| - 1] || k == xs[|xs| - 1];
      if xs[|xs| - 1] in rest then rest else rest + [xs[|xs| - 1]]
  }

  /** The entries of `xs` that are not in `ys`, in order. */
  function Without(xs: seq<string>, ys: seq<string>): (r: seq<string>)
    ensures forall k :: k in r <==> k in xs && k !in ys
  {
    if xs == [] then []
    else if xs[0] in ys then Without(xs[1..], ys)
    else [xs[0]] + Without(xs[1..], ys)
  }

  /** `list(set(jobSkills) - set(resumeSkills))`: each skill of the first list
      that is not in the second, once.  Python lists a set in hash order; this
      model lists it in order of first occurrence. */
  function Difference(jobSkills: seq<string>, resumeSkills: seq<string>): (r: seq<string>)
    ensures Distinct(r)
    ensures forall k :: k in r <==> k in jobSkills && k !in resumeSkills
  {
    Dedup(Without(jobSkills, resumeSkills))
  }

  /** `missing_skills`: the catalog skills of the job text that the resume
      text lacks, each once. */
  function MissingSkills(catalog: seq<string>, jobClean: string, resumeClean: string): (r: seq<string>)
    ensures Distinct(r)
    ensures forall k :: k in r <==> k in MissingSet(catalog, jobClean, resumeClean)
  {
    var jobSkills := Detected(catalog, jobClean);
    var resumeSkills := Detected(catalog, resumeClean);
    Difference(jobSkills, resumeSkills)
  }

  /** The listed gap is empty exactly when the gap set is. */
  lemma MissingSkillsEmptyIff(catalog: seq<string>, jobClean: string, resumeClean: string)
    ensures MissingSkills(catalog, jobClean, resumeClean) == []
        <==> MissingSet(catalog, jobClean, resumeClean) == {}
  {
    var m := MissingSkills(catalog, jobClean, resumeClean);
    if m != [] {
      assert m[0] in m;
    }
  }

  // ---------------------------------------------------------------------------
  // Rendering
  // ---------------------------------------------------------------------------

  /** `sep.join(xs)`. */
  function Join(sep: string, xs: seq<string>): string
  {
    if xs == [] then []
    else if |xs| == 1 then xs[0]
    else xs[0] + sep + Join(sep, xs[1..])
  }

  const NoneText: string := "None"

  /** `', '.join(missing_skills) if missing_skills else 'None'`. */
  function Render(missing: seq<string>): string
  {
    if missing == [] then NoneText else Join(", ", missing)
  }

  /** Every character of a joined string comes from the separator or a part. */
  lemma {:induction false} JoinChars(sep: string, xs: seq<string>, c: char)
    requires c in Join(sep, xs)
    ensures c in sep || exists x :: x in xs && c in x
  {
    if |xs| > 1 {
      if c !in xs[0] && c !in sep {
        JoinChars(sep, xs[1..], c);
        var x :| x in xs[1..] && c in x;
        assert x in xs;
      }
    } else {
      assert xs[0] in xs;
    }
  }

  /** `s.split(", ")`: the pieces between the leftmost non-overlapping
      occurrences of the separator `, `. */
  function Split(s: string): (r: seq<string>)
    ensures |r| >= 1
  {
    if s == [] then [[]]
    else if |s| >= 2 && s[0] == ',' && s[1] == ' ' then [[]] + Split(s[2..])
    else
      var rest := Split(s[1..]);
      [[s[0]] + rest[0]] + rest[1..]
  }

  /** A comma-free prefix joins the first piece of what follows it. */
  lemma {:induction false} SplitPrefix(w: string, rest: string)
    requires ',' !in w
    ensures Split(w + rest) == [w + Split(rest)[0]] + Split(rest)[1..]
  {
    if w != [] {
      SplitPrefix(w[1..], rest);
      assert (w + rest)[1..] == w[1..] + rest;
      assert [w[0]] + (w[1..] + Split(rest)[0]) == w + Split(rest)[0];
    } else {
      var r := Split(rest);
      assert w + rest == rest && w + r[0] == r[0];
      assert r == [r[0]] + r[1..];
    }
  }

  /** Splitting undoes `', '.join(parts)` when no part contains a comma. */
  lemma {:induction false} SplitJoin(xs: seq<string>)
    requires xs != []
    requires forall x :: x in xs ==> ',' !in x
    ensures Split(Join(", ", xs)) == xs
  {
    assert xs[0] in xs;
    if |xs| == 1 {
      SplitPrefix(xs[0], []);
      assert xs[0] + [] == xs[0];
    } else {
      var tail := Join(", ", xs[1..]);
      assert forall x :: x in xs[1..] ==> x in xs;
      SplitJoin(xs[1..]);
      assert Split(", " + tail) == [[]] + Split(tail) by {
        assert (", " + tail)[2..] == tail;
      }
      assert Join(", ", xs) == xs[0] + (", " + tail);
      SplitPrefix(xs[0], ", " + tail);
      assert xs[0] + [] == xs[0];
      assert xs == [xs[0]] + xs[1..];
    }
  }

  /** A non-empty gap is rendered so that splitting it at `, ` gives back
      exactly the missing skills, each once.  Missing skills occur in the
      cleaned job text, so none of them contains a comma. */
  lemma RenderSplit(catalog: seq<string>, jobDescText: string, resumeClean: string)
    requires MissingSet(catalog, CleanText(jobDescText), resumeClean) != {}
    ensures var parts := Split(Render(MissingSkills(catalog, CleanText(jobDescText), resumeClean)));
      && Distinct(parts)
      && forall k :: k in parts <==> k in MissingSet(catalog, CleanText(jobDescText), resumeClean)
  {
    var jobClean := CleanText(jobDescText);
    var m := MissingSkills(catalog, jobClean, resumeClean);
    MissingSkillsEmptyIff(catalog, jobClean, resumeClean);
    forall x | x in m ensures ',' !in x {
      DetectableSkillsAreClean(jobDescText, x);
    }
    SplitJoin(m);
  }

  /** The rendered gap is the literal `None` exactly when no skill is missing.
      This relies on the job text being free of upper-case letters (as every
      output of `clean_text` is): a detected skill then has no `N`, so a
      non-empty join cannot spell `None`. */
  lemma RenderNoneIffNoGap(catalog: seq<string>, jobClean: string, resumeClean: string)
    requires forall c :: c in jobClean ==> !IsUpper(c)
    ensures Render(MissingSkills(catalog, jobClean, resumeClean)) == "None"
        <==> MissingSet(catalog, jobClean, resumeClean) == {}
  {
    var m := MissingSkills(catalog, jobClean, resumeClean);
    if m != [] {
      assert m[0] in m;
      assert m[0] in MissingSet(catalog, jobClean, resumeClean);
      var s := Join(", ", m);
      if 'N' in s {
        JoinChars(", ", m, 'N');
        var x :| x in m && 'N' in x;
        ContainedChars(jobClean, x);
      }
      assert s != "None" by {
        assert "None"[0] == 'N';
      }
    } else {
      assert forall k :: k !in MissingSet(catalog, jobClean, resumeClean);
    }
  }

  /** The gap is contained in the catalog and in the skills of the job text. */
  lemma MissingSubsets(catalog: seq<string>, jobClean: string, resumeClean: string)
    ensures MissingSet(catalog, jobClean, resumeClean) <= set k | k in catalog
    ensures MissingSet(catalog, jobClean, resumeClean) <= set k | k in Detected(catalog, jobClean)
  {
  }

  /** A text has no gap against itself, and an empty catalog has no gap: in
      both cases the rendered gap is `None`. */
  lemma NoGapCases(catalog: seq<string>, jobClean: string, resumeClean: string)
    ensures MissingSet(catalog, jobClean, jobClean) == {}
    ensures Render(MissingSkills(catalog, jobClean, jobClean)) == "None"
    ensures MissingSet([], jobClean, resumeClean) == {}
    ensures Render(MissingSkills([], jobClean, resumeClean)) == "None"
  {
    MissingSkillsEmptyIff(catalog, jobClean, jobClean);
  }

  /** Against an empty resume every non-empty skill of the job text is missing. */
  lemma EmptyResumeGap(catalog: seq<string>, jobClean: string)
    ensures forall k :: (k in MissingSet(catalog, jobClean, "")
                         <==> k in catalog && Contains(jobClean, k) && k != "")
  {
    forall k ensures Contains("", k) <==> k == "" {
    }
  }

  /** Because of the missing word boundaries, a resume mentioning only
      `javascript` is not missing `java`. */
  lemma SubstringCaveat()
    ensures MissingSet(["java"], "java", "javascript") == {}
  {
    NoWordBoundaries();
  }
}
