/**
 * The five prompts the career helpers send (utils.py). Each is an f-string:
 * fixed text with the caller's fields substituted verbatim, with no escaping.
 * A template with one field is its text before and after the field; one with
 * two fields also has the text between them.
 */
module Prompts {
  import opened Wrappers

  datatype Template1 = Template1(before: string, after: string)
  datatype Template2 = Template2(before: string, between: string, after: string)

  function Fill1(t: Template1, x: string): string {
    t.before + x + t.after
  }

  function Fill2(t: Template2, x: string, y: string): string {
    t.before + x + t.between + y + t.after
  }

  /** Reads the field back out of a filled one-field template, if `p` is one. */
  function Unfill1(t: Template1, p: string): (r: Option<string>)
    ensures r.Some? ==> p == Fill1(t, r.value)
  {
    var n := |t.before| + |t.after|;
    if n <= |p| && p[..|t.before|] == t.before && p[|p| - |t.after|..] == t.after then
      var x := p[|t.before|..|p| - |t.after|];
      assert p == p[..|t.before|] + x + p[|p| - |t.after|..];
      Some(x)
    else None
  }

  /**
   * Reads both fields back out of a filled two-field template, given the
   * length of the first field. The length is needed: a field may itself hold
   * the text between the fields (see DomainPromptAmbiguous).
   */
  function Unfill2(t: Template2, p: string, n: nat): (r: Option<(string, string)>)
    ensures r.Some? ==> |r.value.0| == n && p == Fill2(t, r.value.0, r.value.1)
  {
    var m := |t.before| + n;
    var k := m + |t.between|;
    if k + |t.after| <= |p| && p[..|t.before|] == t.before && p[m..k] == t.between
       && p[|p| - |t.after|..] == t.after then
      var x, y := p[|t.before|..m], p[k..|p| - |t.after|];
      assert p == p[..|t.before|] + x + p[m..k] + y + p[|p| - |t.after|..];
      Some((x, y))
    else None
  }

  /** Filling and reading back are inverse: the field comes back verbatim. */
  lemma Unfill1Fill1(t: Template1, p: string, x: string)
    ensures Unfill1(t, p) == Some(x) <==> p == Fill1(t, x)
  {
    if p == Fill1(t, x) {
      assert p[..|t.before|] == t.before;
      assert p[|p| - |t.after|..] == t.after;
      assert p[|t.before|..|p| - |t.after|] == x;
    }
  }

  /** Filling and reading back are inverse: both fields come back verbatim and in template order. */
  lemma Unfill2Fill2(t: Template2, p: string, x: string, y: string)
    ensures Unfill2(t, p, |x|) == Some((x, y)) <==> p == Fill2(t, x, y)
  {
    if p == Fill2(t, x, y) {
      var m := |t.before| + |x|;
      var k := m + |t.between|;
      assert p[..|t.before|] == t.before;
      assert p[|t.before|..m] == x;
      assert p[m..k] == t.between;
      assert p[k..|p| - |t.after|] == y;
      assert p[|p| - |t.after|..] == t.after;
    }
  }

  const DomainTemplate := Template2("Suggest the best career domain for someone with skills: ", " and interests: ", ".")
  const ResourcesTemplate := Template1("Provide 5 top learning resources (title & link) for the career domain: ", ".")
  const GuideTemplate := Template1("Provide a detailed preparation guide for the job: ", ".")
  const SkillGapTemplate := Template2("Analyze the skill gap for someone with current skills: ", " aiming for job: ", ".")
  const ResumeTemplate := Template2("Optimize the following resume to match this job description:\n\nJob Description:\n", "\n\nResume:\n", "")

  /** The prompt of `get_domain_recommendation`: skills, then interests. */
  function DomainPrompt(skills: string, interests: string): (p: string)
    ensures Unfill2(DomainTemplate, p, |skills|) == Some((skills, interests))
    ensures |p| > 0
  {
    Unfill2Fill2(DomainTemplate, Fill2(DomainTemplate, skills, interests), skills, interests);
    Fill2(DomainTemplate, skills, interests)
  }

  /** The prompt of `get_learning_resources`. */
  function ResourcesPrompt(domain: string): (p: string)
    ensures Unfill1(ResourcesTemplate, p) == Some(domain)
    ensures |p| > 0
  {
    Unfill1Fill1(ResourcesTemplate, Fill1(ResourcesTemplate, domain), domain);
    Fill1(ResourcesTemplate, domain)
  }

  /** The prompt of `get_job_preparation_guide`. */
  function GuidePrompt(jobTitle: string): (p: string)
    ensures Unfill1(GuideTemplate, p) == Some(jobTitle)
    ensures |p| > 0
  {
    Unfill1Fill1(GuideTemplate, Fill1(GuideTemplate, jobTitle), jobTitle);
    Fill1(GuideTemplate, jobTitle)
  }

  /**
   * The prompt of `get_skill_gap(target_job, current_skills)`: the current
   * skills come first in the text although they are the second parameter.
   */
  function SkillGapPrompt(targetJob: string, currentSkills: string): (p: string)
    ensures Unfill2(SkillGapTemplate, p, |currentSkills|) == Some((currentSkills, targetJob))
    ensures |p| > 0
  {
    Unfill2Fill2(SkillGapTemplate, Fill2(SkillGapTemplate, currentSkills, targetJob), currentSkills, targetJob);
    Fill2(SkillGapTemplate, currentSkills, targetJob)
  }

  /** The prompt of `optimize_resume`: the job description, then the resume text, which ends the prompt. */
  function ResumePrompt(jobDescription: string, resumeText: string): (p: string)
    ensures Unfill2(ResumeTemplate, p, |jobDescription|) == Some((jobDescription, resumeText))
    ensures |p| > 0
  {
    Unfill2Fill2(ResumeTemplate, Fill2(ResumeTemplate, jobDescription, resumeText), jobDescription, resumeText);
    Fill2(ResumeTemplate, jobDescription, resumeText)
  }

  /**
   * Without the length of the first field the fields cannot be recovered:
   * two different (skills, interests) pairs give the same prompt, because the
   * fields are substituted without escaping.
   */
  lemma DomainPromptAmbiguous(skills: string, middle: string, interests: string)
    ensures (skills + DomainTemplate.between + middle, interests) != (skills, middle + DomainTemplate.between + interests)
    ensures DomainPrompt(skills + DomainTemplate.between + middle, interests)
         == DomainPrompt(skills, middle + DomainTemplate.between + interests)
  {
    assert |skills + DomainTemplate.between + middle| != |skills|;
    assert skills + DomainTemplate.between + middle != skills;
    Fill2Shift(DomainTemplate, skills, middle, interests);
  }

  /** Text between the fields can be read as the end of the first field or the start of the second. */
  lemma Fill2Shift(t: Template2, x: string, middle: string, y: string)
    ensures Fill2(t, x + t.between + middle, y) == Fill2(t, x, middle + t.between + y)
  {
    assert t.before + (x + t.between + middle) == t.before + x + t.between + middle;
    assert middle + t.between + y + t.after == (middle + t.between + y) + t.after;
  }

  /** The domain prompt is the f-string's text with skills and interests in place. */
  lemma DomainPromptText(skills: string, interests: string)
    ensures DomainPrompt(skills, interests)
         == "Suggest the best career domain for someone with skills: " + skills + " and interests: " + interests + "."
  {
  }

  /** The resources prompt is the f-string's text with the domain in place. */
  lemma ResourcesPromptText(domain: string)
    ensures ResourcesPrompt(domain)
         == "Provide 5 top learning resources (title & link) for the career domain: " + domain + "."
  {
  }

  /** The guide prompt is the f-string's text with the job title in place. */
  lemma GuidePromptText(jobTitle: string)
    ensures GuidePrompt(jobTitle) == "Provide a detailed preparation guide for the job: " + jobTitle + "."
  {
  }

  /** The skill-gap prompt is the f-string's text with the current skills, then the target job, in place. */
  lemma SkillGapPromptText(targetJob: string, currentSkills: string)
    ensures SkillGapPrompt(targetJob, currentSkills)
         == "Analyze the skill gap for someone with current skills: " + currentSkills + " aiming for job: " + targetJob + "."
  {
  }

  /** The resume prompt is the f-string's text with the job description, then the resume text, in place. */
  lemma ResumePromptText(jobDescription: string, resumeText: string)
    ensures ResumePrompt(jobDescription, resumeText)
         == "Optimize the following resume to match this job description:\n\nJob Description:\n" + jobDescription
            + "\n\nResume:\n" + resumeText
  {
  }
}
