/**
 * The five completion helpers of utils.py. Each builds its prompt, sends one
 * chat request holding that prompt as the single user message, with model
 * "llama3-8b-8192" and temperature 0.7, and reads the text of the first
 * choice. The remote model is not modelled: `complete` stands for it and maps
 * a request to the reply text.
 */
module Completions {
  import opened PyStr
  import opened Prompts
  import opened Resources

  datatype Message = Message(role: string, content: string)
  datatype Request = Request(model: string, messages: seq<Message>, temperature: real)

  const Model: string := "llama3-8b-8192"
  const Temperature: real := 0.7

  /** `messages=[{"role": "user", "content": prompt}]` with the fixed model and temperature. */
  function UserRequest(prompt: string): (r: Request)
    ensures r.model == Model && r.messages == [Message("user", prompt)] && r.temperature == Temperature
    ensures WellFormed(r) <==> prompt != ""
  {
    Request(Model, [Message("user", prompt)], Temperature)
  }

  /** A request with one non-empty user message and a temperature in [0, 1]. */
  predicate WellFormed(r: Request) {
    |r.messages| == 1 && r.messages[0].role == "user" && r.messages[0].content != ""
    && 0.0 <= r.temperature <= 1.0
  }

  /** Every helper sends a well-formed request, because no prompt is empty. */
  lemma RequestsWellFormed(skills: string, interests: string, domain: string, jobTitle: string,
                           targetJob: string, currentSkills: string,
                           jobDescription: string, resumeText: string)
    ensures WellFormed(UserRequest(DomainPrompt(skills, interests)))
    ensures WellFormed(UserRequest(ResourcesPrompt(domain)))
    ensures WellFormed(UserRequest(GuidePrompt(jobTitle)))
    ensures WellFormed(UserRequest(SkillGapPrompt(targetJob, currentSkills)))
    ensures WellFormed(UserRequest(ResumePrompt(jobDescription, resumeText)))
  {
  }

  /** `response.choices[0].message["content"].strip()` for the request carrying `prompt`. */
  function Answer(complete: Request -> string, prompt: string): (r: string)
    ensures Stripped(r) && Strip(r) == r
    ensures exists i :: Padding(complete(UserRequest(prompt)), i, r)
  {
    var r := Strip(complete(UserRequest(prompt)));
    StripIdempotent(complete(UserRequest(prompt)));
    r
  }

  /**
   * `get_domain_recommendation(skills, interests)`: the reply to the domain
   * prompt with the whitespace at its ends removed; stripping it again
   * changes nothing.
   */
  function GetDomainRecommendation(complete: Request -> string, skills: string, interests: string): (r: string)
    ensures Stripped(r) && Strip(r) == r
    ensures exists i :: Padding(complete(UserRequest(DomainPrompt(skills, interests))), i, r)
  {
    Answer(complete, DomainPrompt(skills, interests))
  }

  /** `get_job_preparation_guide(job_title)`: the stripped reply to the guide prompt. */
  function GetJobPreparationGuide(complete: Request -> string, jobTitle: string): (r: string)
    ensures Stripped(r) && Strip(r) == r
    ensures exists i :: Padding(complete(UserRequest(GuidePrompt(jobTitle))), i, r)
  {
    Answer(complete, GuidePrompt(jobTitle))
  }

  /** `get_skill_gap(target_job, current_skills)`: the stripped reply to the skill-gap prompt. */
  function GetSkillGap(complete: Request -> string, targetJob: string, currentSkills: string): (r: string)
    ensures Stripped(r) && Strip(r) == r
    ensures exists i :: Padding(complete(UserRequest(SkillGapPrompt(targetJob, currentSkills))), i, r)
  {
    Answer(complete, SkillGapPrompt(targetJob, currentSkills))
  }

  /** `optimize_resume(job_description, resume_text)`: the stripped reply to the resume prompt. */
  function OptimizeResume(complete: Request -> string, jobDescription: string, resumeText: string): (r: string)
    ensures Stripped(r) && Strip(r) == r
    ensures exists i :: Padding(complete(UserRequest(ResumePrompt(jobDescription, resumeText))), i, r)
  {
    Answer(complete, ResumePrompt(jobDescription, resumeText))
  }

  /**
   * `get_learning_resources(domain)`: the reply to the resources prompt,
   * parsed line by line. The reply is not stripped first; the parse never
   * fails and gives at most one resource per line of the reply.
   */
  method GetLearningResources(complete: Request -> string, domain: string) returns (resources: seq<Resource>)
    ensures resources == ParseReply(complete(UserRequest(ResourcesPrompt(domain))))
    ensures |resources| <= Count(complete(UserRequest(ResourcesPrompt(domain))), LineBreak) + 1
  {
    resources := ParseResources(complete(UserRequest(ResourcesPrompt(domain))));
  }
}
