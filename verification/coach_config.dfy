/**
 * The interview-coach configuration layer: input normalization, the fixed
 * fallback configuration, and the builder that asks a language model for a
 * configuration, validates it, and cleans it up. The model call and the
 * environment are parameters: `apiKey` is the configured key (if any) and
 * `model` answers one call given the title, the job-description slot and
 * the normalized resume.
 */
module CoachConfig {
  import opened Wrappers
  import opened Text

  const MaxResumeChars: nat := 12000
  const MaxJobDescriptionChars: nat := 8000

  /** A configuration: the assistant's opening line, its system prompt and the topics to probe. */
  datatype Config = Config(firstMessage: string, systemPrompt: string, focusAreas: seq<string>)

  /** The configuration schema: opening 40 to 600 characters, prompt at least 300, three to six areas of 2 to 80. */
  predicate SchemaValid(c: Config) {
    && 40 <= |c.firstMessage| <= 600
    && 300 <= |c.systemPrompt|
    && 3 <= |c.focusAreas| <= 6
    && (forall i :: 0 <= i < |c.focusAreas| ==> 2 <= |c.focusAreas[i]| <= 80)
  }

  /** `normalizeResumeText`: `Normalize` with the 12000-character limit. */
  function NormalizeResumeText(s: string): (r: string)
    ensures |r| <= MaxResumeChars
  {
    Normalize(s, MaxResumeChars)
  }

  /**
   * `normalizeJobDescription`: absent stays absent; a present description
   * becomes its words joined by single spaces, cut to 8000 characters.
   */
  function NormalizeJobDescription(jd: Option<string>): (r: Option<string>)
    ensures r.Some? <==> jd.Some?
    ensures jd.Some? ==> r.value == Normalize(jd.value, MaxJobDescriptionChars)
    ensures jd.Some? ==> |r.value| <= MaxJobDescriptionChars
  {
    match jd
    case None => None
    case Some(s) => Some(Normalize(s, MaxJobDescriptionChars))
  }

  /**
   * `normalizedJobDescription || "Not provided"`: the placeholder when the
   * description is absent or has no visible character, the normalized
   * description otherwise.
   */
  function JobDescriptionSlot(jd: Option<string>): (r: string)
    ensures r != []
    ensures jd.None? || Words(jd.value) == [] ==> r == NotProvided
    ensures jd.Some? && Words(jd.value) != [] ==> r == NormalizeJobDescription(jd).value
  {
    match NormalizeJobDescription(jd)
    case None => NotProvided
    case Some(n) =>
      var ws := Words(jd.value);
      JoinShape(ws);
      assert n == [] <==> ws == [];
      if n == [] then NotProvided else n
  }

  // The fallback templates, written in short pieces that concatenate to the
  // exact template text.

  const FirstMessageHead: string :=
    "Hello! I'm excited to interview "
    + "you for the "

  const FirstMessageTail: string :=
    " role. I reviewed your resume "
    + "and will ask targeted questions. "
    + "Let's start: tell me about yourself "
    + "and why this role is a strong "
    + "fit for you."

  const PromptHead: string :=
    "You are an expert AI interview "
    + "coach conducting a professional "
    + "interview for the position: "

  const PromptJobHeader: string :=
    ".\n\nJOB DESCRIPTION:\n"

  const PromptResumeHeader: string :=
    "\n\nCANDIDATE RESUME:\n"

  /** The fixed instructions closing the fallback system prompt. */
  const PromptRules: string :=
    "\n\nYOUR ROLE:\n1. Run a realistic "
    + "interview with 5-7 strong questions.\n"
    + "2. Ask one question at a time "
    + "and wait for the candidate's "
    + "response.\n3. Mix behavioral, "
    + "technical, and problem-solving "
    + "questions.\n4. Reference resume "
    + "details when relevant.\n5. Give "
    + "short, constructive feedback "
    + "after important answers.\n6. "
    + "Ask concise follow-up questions "
    + "to probe depth.\n7. Keep tone "
    + "warm, direct, and professional.\n"
    + "8. End by asking if they have "
    + "any questions for the interviewer.\n"
    + "\nDO NOT:\n- Ask \"How can I help "
    + "you?\"\n- Dump multiple questions "
    + "in one turn\n- Break role as "
    + "interviewer"

  const DefaultFocusAreas: seq<string> := ["experience depth", "technical clarity", "communication quality"]

  const NotProvided: string := "Not provided"

  lemma TemplateLengths()
    ensures |FirstMessageHead| == 44 && |FirstMessageTail| == 141
    ensures |PromptHead| == 91 && |PromptJobHeader| == 20 && |PromptResumeHeader| == 20
    ensures |PromptRules| >= 300
  {
  }

  /** `sub` sits in `s` starting at position `k`. */
  predicate OccursAt(s: string, sub: string, k: nat) {
    k + |sub| <= |s| && s[k..k + |sub|] == sub
  }

  lemma OccursFront(b: string, c: string)
    ensures OccursAt(b + c, b, 0)
  {
    assert (b + c)[..|b|] == b;
  }

  lemma OccursAfter(a: string, s: string, b: string, k: nat)
    requires OccursAt(s, b, k)
    ensures OccursAt(a + s, b, |a| + k)
  {
    assert (a + s)[|a| + k..|a| + k + |b|] == s[k..k + |b|];
  }

  /** Three fixed pieces around three filled-in slots, each slot found where the pieces before it end. */
  function Fill(h: string, x: string, m: string, y: string, n: string, z: string, t: string): (r: string)
    ensures |r| == |h| + |x| + |m| + |y| + |n| + |z| + |t|
    ensures OccursAt(r, x, |h|)
    ensures OccursAt(r, y, |h| + |x| + |m|)
    ensures OccursAt(r, z, |h| + |x| + |m| + |y| + |n|)
  {
    var tail := z + t;
    var fromN := n + tail;
    var fromY := y + fromN;
    var fromM := m + fromY;
    var fromX := x + fromM;
    var r := h + fromX;
    OccursFront(z, t);
    OccursAfter(n, tail, z, 0);
    OccursFront(y, fromN);
    OccursAfter(m, fromY, y, 0);
    OccursAfter(m, fromY, z, |y| + |n|);
    OccursFront(x, fromM);
    OccursAfter(x, fromM, y, |m|);
    OccursAfter(x, fromM, z, |m| + |y| + |n|);
    OccursAfter(h, fromX, x, 0);
    OccursAfter(h, fromX, y, |x| + |m|);
    OccursAfter(h, fromX, z, |x| + |m| + |y| + |n|);
    r
  }

  /** The fixed text of a fallback configuration, around the three filled-in slots. */
  datatype Template = Template(
    openingHead: string,
    openingTail: string,
    promptHead: string,
    jobHeader: string,
    resumeHeader: string,
    rules: string)

  const SourceTemplate := Template(FirstMessageHead, FirstMessageTail, PromptHead,
                                   PromptJobHeader, PromptResumeHeader, PromptRules)

  /**
   * A fallback configuration from a template: the opening line names the
   * title; the system prompt carries the title, the job-description slot
   * and the resume, each right after the fixed text before it; the focus
   * areas are the three defaults.
   */
  function FillTemplate(t: Template, jobTitle: string, slot: string, resume: string): (c: Config)
    ensures OccursAt(c.firstMessage, jobTitle, |t.openingHead|)
    ensures |c.firstMessage| == |t.openingHead| + |jobTitle| + |t.openingTail|
    ensures OccursAt(c.systemPrompt, jobTitle, |t.promptHead|)
    ensures OccursAt(c.systemPrompt, slot, |t.promptHead| + |jobTitle| + |t.jobHeader|)
    ensures OccursAt(c.systemPrompt, resume, |t.promptHead| + |jobTitle| + |t.jobHeader| + |slot| + |t.resumeHeader|)
    ensures |c.systemPrompt| >= |t.rules|
    ensures c.focusAreas == DefaultFocusAreas
  {
    var first := Fill(t.openingHead, jobTitle, t.openingTail, [], [], [], []);
    var prompt := Fill(t.promptHead, jobTitle, t.jobHeader, slot, t.resumeHeader, resume, t.rules);
    Config(first, prompt, DefaultFocusAreas)
  }

  /**
   * `getFallbackInterviewCoachConfig`: the source's template filled with
   * the title, the job-description slot and the normalized resume.
   */
  function Fallback(jobTitle: string, resumeText: string, jd: Option<string>): Config {
    FillTemplate(SourceTemplate, jobTitle, JobDescriptionSlot(jd), NormalizeResumeText(resumeText))
  }

  /**
   * What the fallback carries: the title right after the opening's fixed
   * greeting; in the system prompt, the title right after its fixed head,
   * then the job-description slot and the normalized resume, each right
   * after the fixed header before it; the three default focus areas.
   */
  lemma FallbackContent(jobTitle: string, resumeText: string, jd: Option<string>)
    ensures var c, t, slot := Fallback(jobTitle, resumeText, jd), SourceTemplate, JobDescriptionSlot(jd);
      && OccursAt(c.firstMessage, jobTitle, |t.openingHead|)
      && OccursAt(c.systemPrompt, jobTitle, |t.promptHead|)
      && OccursAt(c.systemPrompt, slot, |t.promptHead| + |jobTitle| + |t.jobHeader|)
      && OccursAt(c.systemPrompt, NormalizeResumeText(resumeText),
                  |t.promptHead| + |jobTitle| + |t.jobHeader| + |slot| + |t.resumeHeader|)
      && c.focusAreas == DefaultFocusAreas
  {
    FillContent(SourceTemplate, jobTitle, JobDescriptionSlot(jd), NormalizeResumeText(resumeText));
  }

  /** Where the slots of any filled template sit, stated apart so that no fixed text is looked into. */
  lemma FillContent(t: Template, jobTitle: string, slot: string, resume: string)
    ensures var c := FillTemplate(t, jobTitle, slot, resume);
      && OccursAt(c.firstMessage, jobTitle, |t.openingHead|)
      && OccursAt(c.systemPrompt, jobTitle, |t.promptHead|)
      && OccursAt(c.systemPrompt, slot, |t.promptHead| + |jobTitle| + |t.jobHeader|)
      && OccursAt(c.systemPrompt, resume, |t.promptHead| + |jobTitle| + |t.jobHeader| + |slot| + |t.resumeHeader|)
      && c.focusAreas == DefaultFocusAreas
  {
  }

  /**
   * The fallback passes the configuration schema whenever its opening line
   * fits in 600 characters, that is for titles of up to 415 characters,
   * which covers every title the route accepts.
   */
  lemma FallbackMeetsSchema(jobTitle: string, resumeText: string, jd: Option<string>)
    requires |jobTitle| <= 415
    ensures SchemaValid(Fallback(jobTitle, resumeText, jd))
  {
    TemplateLengths();
    FillMeetsSchema(SourceTemplate, jobTitle, JobDescriptionSlot(jd), NormalizeResumeText(resumeText));
  }

  /** Any template whose opening fits and whose rules are long enough yields a valid configuration. */
  lemma FillMeetsSchema(t: Template, jobTitle: string, slot: string, resume: string)
    requires 40 <= |t.openingHead| + |jobTitle| + |t.openingTail| <= 600
    requires |t.rules| >= 300
    ensures SchemaValid(FillTemplate(t, jobTitle, slot, resume))
  {
    DefaultFocusAreasValid();
  }

  lemma DefaultFocusAreasValid()
    ensures 3 <= |DefaultFocusAreas| <= 6
    ensures forall i :: 0 <= i < |DefaultFocusAreas| ==> 2 <= |DefaultFocusAreas[i]| <= 80
  {
  }

  /** The fallback sees the resume only through its words: re-spacing it changes nothing. */
  lemma FallbackSeesOnlyWords(jobTitle: string, resume1: string, resume2: string, jd: Option<string>)
    requires Words(resume1) == Words(resume2)
    ensures Fallback(jobTitle, resume1, jd) == Fallback(jobTitle, resume2, jd)
  {
    NormalizeSeesOnlyWords(resume1, resume2, MaxResumeChars);
  }

  /** How many of the areas hold a visible (non-whitespace) character. */
  function ContentCount(areas: seq<string>): nat {
    if areas == [] then 0
    else (if AllSpace(areas[0]) then 0 else 1) + ContentCount(areas[1..])
  }

  /** A cleaned area is non-empty and has no whitespace at either end. */
  predicate Tidy(x: string) {
    x != [] && !StartsWithSpace(x) && !EndsWithSpace(x)
  }

  /**
   * `areas.map(trim).filter(Boolean)`: every area trimmed, the ones left
   * empty dropped; one tidy area per area with visible content.
   */
  function TrimmedNonEmpty(areas: seq<string>): (r: seq<string>)
    ensures |r| == ContentCount(areas)
    ensures forall i :: 0 <= i < |r| ==> Tidy(r[i])
  {
    if areas == [] then []
    else
      var t := Trim(areas[0]);
      var rest := TrimmedNonEmpty(areas[1..]);
      assert t == [] <==> AllSpace(areas[0]) by {
        TrimEmptyIffAllSpace(areas[0]);
      }
      if t == [] then rest
      else
        assert forall i :: 1 <= i < |[t] + rest| ==> ([t] + rest)[i] == rest[i - 1];
        [t] + rest
  }

  /**
   * Every area with visible content appears in the result, trimmed, at the
   * position given by how many areas with visible content come before it.
   */
  lemma {:induction false} TrimmedNonEmptyAt(areas: seq<string>, k: nat)
    requires k < |areas| && !AllSpace(areas[k])
    ensures ContentCount(areas[..k]) < |TrimmedNonEmpty(areas)|
    ensures TrimmedNonEmpty(areas)[ContentCount(areas[..k])] == Trim(areas[k])
  {
    TrimEmptyIffAllSpace(areas[0]);
    if k == 0 {
      assert areas[..0] == [];
    } else {
      TrimmedNonEmptyAt(areas[1..], k - 1);
      assert areas[1..][k - 1] == areas[k];
      assert areas[..k][1..] == areas[1..][..k - 1];
    }
  }

  /** Every position of the result holds an area with visible content: nothing else gets in. */
  lemma {:induction false} TrimmedNonEmptyFrom(areas: seq<string>, i: nat)
    requires i < |TrimmedNonEmpty(areas)|
    ensures exists k :: 0 <= k < |areas| && !AllSpace(areas[k]) && ContentCount(areas[..k]) == i
  {
    TrimEmptyIffAllSpace(areas[0]);
    if !AllSpace(areas[0]) && i == 0 {
      assert areas[..0] == [];
      assert ContentCount(areas[..0]) == 0;
    } else {
      var j := if AllSpace(areas[0]) then i else i - 1;
      TrimmedNonEmptyFrom(areas[1..], j);
      var k :| 0 <= k < |areas[1..]| && !AllSpace(areas[1..][k]) && ContentCount(areas[1..][..k]) == j;
      assert areas[..k + 1][1..] == areas[1..][..k];
      assert areas[k + 1] == areas[1..][k];
      assert ContentCount(areas[..k + 1]) == i;
    }
  }

  /** No area is longer than `n`. */
  predicate Bounded(areas: seq<string>, n: nat) {
    forall i :: 0 <= i < |areas| ==> |areas[i]| <= n
  }

  lemma BoundedCons(t: string, rest: seq<string>, n: nat)
    requires |t| <= n && Bounded(rest, n)
    ensures Bounded([t] + rest, n)
  {
    var r := [t] + rest;
    forall i | 0 <= i < |r|
      ensures |r[i]| <= n
    {
      if i > 0 {
        assert r[i] == rest[i - 1];
      }
    }
  }

  /** Trimming never lengthens: no cleaned area is longer than the longest area. */
  lemma {:induction false} TrimmedNonEmptyShorter(areas: seq<string>)
    ensures Bounded(TrimmedNonEmpty(areas), LongestLength(areas))
  {
    if areas != [] {
      var t := Trim(areas[0]);
      var rest := TrimmedNonEmpty(areas[1..]);
      var n := LongestLength(areas);
      TrimmedNonEmptyShorter(areas[1..]);
      assert Bounded(rest, n);
      if t != [] {
        BoundedCons(t, rest, n);
      }
    }
  }

  /** The length of the longest area. */
  function LongestLength(areas: seq<string>): (n: nat)
    ensures forall j :: 0 <= j < |areas| ==> |areas[j]| <= n
  {
    if areas == [] then 0
    else
      var rest := LongestLength(areas[1..]);
      assert forall j :: 1 <= j < |areas| ==> areas[j] == areas[1..][j - 1];
      if |areas[0]| > rest then |areas[0]| else rest
  }

  /** A bound on every area bounds the longest one. */
  lemma {:induction false} LongestLengthBounded(areas: seq<string>, n: nat)
    requires forall j :: 0 <= j < |areas| ==> |areas[j]| <= n
    ensures LongestLength(areas) <= n
  {
    if areas != [] {
      LongestLengthBounded(areas[1..], n);
    }
  }

  /** `.slice(0, 6)`. */
  function TakeSix(xs: seq<string>): (r: seq<string>)
    ensures |r| == if |xs| <= 6 then |xs| else 6
    ensures r == xs[..|r|]
  {
    if |xs| <= 6 then xs else xs[..6]
  }

  /**
   * The configuration handed to the final schema check: opening and prompt
   * trimmed, the cleaned areas (at most six) when at least three remain,
   * the fallback's areas otherwise. The fallback's areas are the same three
   * whatever the fallback is built from, so they are written here directly.
   */
  function Cleaned(raw: Config): (c: Config)
    ensures c.firstMessage == Trim(raw.firstMessage) && c.systemPrompt == Trim(raw.systemPrompt)
    ensures !StartsWithSpace(c.firstMessage) && !EndsWithSpace(c.firstMessage)
    ensures !StartsWithSpace(c.systemPrompt) && !EndsWithSpace(c.systemPrompt)
    ensures ContentCount(raw.focusAreas) < 3 ==> c.focusAreas == DefaultFocusAreas
    ensures ContentCount(raw.focusAreas) >= 3 ==> KeptAreas(raw.focusAreas, c.focusAreas)
  {
    var areas := TakeSix(TrimmedNonEmpty(raw.focusAreas));
    Config(Trim(raw.firstMessage), Trim(raw.systemPrompt),
           if |areas| >= 3 then areas else DefaultFocusAreas)
  }

  /** `kept` is the first six (or fewer) cleaned areas of `areas`, in order. */
  predicate KeptAreas(areas: seq<string>, kept: seq<string>) {
    var cleaned := TrimmedNonEmpty(areas);
    && |kept| == (if |cleaned| <= 6 then |cleaned| else 6)
    && (forall i :: 0 <= i < |kept| ==> kept[i] == cleaned[i])
  }

  /**
   * After a reply that passed the schema, cleaning can only make things
   * shorter: the final check can fail only because the trimmed opening,
   * the trimmed prompt or a trimmed area fell below its minimum length.
   */
  lemma CleanedFailsOnlyShort(raw: Config)
    requires SchemaValid(raw)
    ensures var c := Cleaned(raw);
      SchemaValid(c) <==>
        && 40 <= |c.firstMessage| && 300 <= |c.systemPrompt|
        && (forall i :: 0 <= i < |c.focusAreas| ==> 2 <= |c.focusAreas[i]|)
  {
    var c := Cleaned(raw);
    assert |c.firstMessage| <= 600 by {
      assert |Trim(raw.firstMessage)| <= |raw.firstMessage|;
    }
    assert 3 <= |c.focusAreas| <= 6 by {
      ContentCountBounded(raw.focusAreas);
      DefaultFocusAreasValid();
    }
    assert Bounded(c.focusAreas, 80) by {
      if ContentCount(raw.focusAreas) >= 3 {
        TrimmedNonEmptyShorter(raw.focusAreas);
        LongestLengthBounded(raw.focusAreas, 80);
      } else {
        DefaultFocusAreasValid();
      }
    }
    SchemaValidWhenUpperBoundsHold(c);
  }

  /** With every upper bound of the schema met, only its lower bounds decide. */
  lemma SchemaValidWhenUpperBoundsHold(c: Config)
    requires |c.firstMessage| <= 600 && 3 <= |c.focusAreas| <= 6 && Bounded(c.focusAreas, 80)
    ensures SchemaValid(c) <==>
      && 40 <= |c.firstMessage| && 300 <= |c.systemPrompt|
      && (forall i :: 0 <= i < |c.focusAreas| ==> 2 <= |c.focusAreas[i]|)
  {
  }

  lemma {:induction false} ContentCountBounded(areas: seq<string>)
    ensures ContentCount(areas) <= |areas|
  {
    if areas != [] {
      ContentCountBounded(areas[1..]);
    }
  }

  /** The model's reply: a structured configuration, or a failed call. */
  datatype ModelReply = Reply(config: Config) | CallFailed

  datatype BuildError =
    | MissingApiKey      // no key configured, or the empty string
    | ModelCallFailed    // the call itself failed
    | ReplyRejected      // the reply did not match the schema
    | CleanedRejected    // the cleaned configuration did not match the schema

  /** The one model call the builder makes: raw title, job-description slot, normalized resume. */
  function AskModel(jobTitle: string, jd: Option<string>, resumeText: string,
                    model: (string, string, string) -> ModelReply): ModelReply {
    model(jobTitle, JobDescriptionSlot(jd), NormalizeResumeText(resumeText))
  }

  /**
   * `buildInterviewCoachConfig`: fails without a key, when the call fails,
   * when the reply breaks the schema, or when the cleaned configuration
   * does; otherwise returns the cleaned configuration, which then
   * satisfies the schema and has no surrounding whitespace.
   */
  function BuildCoachConfig(jobTitle: string, jd: Option<string>, resumeText: string,
                            apiKey: Option<string>,
                            model: (string, string, string) -> ModelReply): (r: Result<Config, BuildError>)
    ensures apiKey.None? || apiKey.value == [] ==> r == Failure(MissingApiKey)
    ensures r == Failure(MissingApiKey) ==> apiKey.None? || apiKey.value == []
    ensures apiKey.Some? && apiKey.value != [] ==>
      var reply := AskModel(jobTitle, jd, resumeText, model);
      && (reply.CallFailed? <==> r == Failure(ModelCallFailed))
      && (reply.Reply? && !SchemaValid(reply.config) <==> r == Failure(ReplyRejected))
      && (r.Success? <==> reply.Reply? && SchemaValid(reply.config) &&
                          SchemaValid(Cleaned(reply.config)))
    ensures r.Success? ==>
      && AskModel(jobTitle, jd, resumeText, model).Reply?
      && r.value == Cleaned(AskModel(jobTitle, jd, resumeText, model).config)
      && SchemaValid(r.value)
      && !StartsWithSpace(r.value.firstMessage) && !EndsWithSpace(r.value.firstMessage)
      && !StartsWithSpace(r.value.systemPrompt) && !EndsWithSpace(r.value.systemPrompt)
  {
    if apiKey.None? || apiKey.value == [] then Failure(MissingApiKey)
    else
      match AskModel(jobTitle, jd, resumeText, model)
      case CallFailed => Failure(ModelCallFailed)
      case Reply(raw) =>
        if !SchemaValid(raw) then Failure(ReplyRejected)
        else
          var c := Cleaned(raw);
          if SchemaValid(c) then Success(c) else Failure(CleanedRejected)
  }

  /**
   * The focus areas of a built configuration are the fallback's three
   * exactly when the reply had fewer than three areas with visible content;
   * otherwise they are the reply's first areas, trimmed, in order.
   */
  lemma BuiltFocusAreas(jobTitle: string, jd: Option<string>, resumeText: string,
                        apiKey: Option<string>, model: (string, string, string) -> ModelReply)
    requires BuildCoachConfig(jobTitle, jd, resumeText, apiKey, model).Success?
    ensures AskModel(jobTitle, jd, resumeText, model).Reply?
    ensures var raw := AskModel(jobTitle, jd, resumeText, model).config;
      var c := BuildCoachConfig(jobTitle, jd, resumeText, apiKey, model).value;
      && (ContentCount(raw.focusAreas) < 3 ==> c.focusAreas == DefaultFocusAreas)
      && (ContentCount(raw.focusAreas) >= 3 ==> KeptAreas(raw.focusAreas, c.focusAreas))
  {
  }

  /** The builder sees the resume only through its words: re-spacing it changes nothing. */
  lemma BuildSeesOnlyWords(jobTitle: string, jd: Option<string>, resume1: string, resume2: string,
                           apiKey: Option<string>, model: (string, string, string) -> ModelReply)
    requires Words(resume1) == Words(resume2)
    ensures BuildCoachConfig(jobTitle, jd, resume1, apiKey, model) ==
            BuildCoachConfig(jobTitle, jd, resume2, apiKey, model)
  {
    NormalizeSeesOnlyWords(resume1, resume2, MaxResumeChars);
  }
}
