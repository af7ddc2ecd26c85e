/**
  The rule-based planner: it detects the requested task from the user's text
  by keyword, checks that the inputs the task needs seem to be present, and
  answers with either the questions still open or a plan copied from the
  catalog entry.
 */
module Planner {
  import opened Wrappers
  import opened Strings
  import opened Features

  // ---------------------------------------------------------------------------
  // Task detection
  // ---------------------------------------------------------------------------

  /** Some keyword of f occurs in text. */
  predicate Triggers(f: Feature, text: string) {
    exists k :: 0 <= k < |f.keywords| && Contains(text, f.keywords[k])
  }

  /** The index of the first entry of fs, from index `from` on, that text triggers. */
  function FirstMatch(fs: seq<Feature>, text: string, from: nat): (r: Option<nat>)
    requires from <= |fs|
    ensures r.Some? ==> from <= r.value < |fs| && Triggers(fs[r.value], text)
    ensures r.Some? ==> forall j :: from <= j < r.value ==> !Triggers(fs[j], text)
    ensures r.None? <==> forall j :: from <= j < |fs| ==> !Triggers(fs[j], text)
    decreases |fs| - from
  {
    if from == |fs| then None
    else if Triggers(fs[from], text) then Some(from)
    else FirstMatch(fs, text, from + 1)
  }

  /** The first match is the only index that triggers with no triggering index before it. */
  lemma FirstMatchIsUnique(fs: seq<Feature>, text: string, i: nat)
    requires i < |fs| && Triggers(fs[i], text)
    requires forall j :: 0 <= j < i ==> !Triggers(fs[j], text)
    ensures FirstMatch(fs, text, 0) == Some(i)
  {
    var r := FirstMatch(fs, text, 0);
    assert r.Some?;
    assert Triggers(fs[r.value], text);
  }

  /**
    The catalog entry the lower-cased input selects: the first entry with a
    keyword that occurs in it, or None when no keyword of any entry occurs.
   */
  function Detect(userInput: string): (r: Option<Feature>)
    ensures r.Some? ==> exists i :: 0 <= i < |FEATURES| && r.value == FEATURES[i]
                                    && Triggers(FEATURES[i], ToLower(userInput))
                                    && forall j :: 0 <= j < i ==> !Triggers(FEATURES[j], ToLower(userInput))
    ensures r.None? <==> forall i :: 0 <= i < |FEATURES| ==> !Triggers(FEATURES[i], ToLower(userInput))
  {
    match FirstMatch(FEATURES, ToLower(userInput), 0)
    case None => None
    case Some(i) => Some(FEATURES[i])
  }

  /** detect_task: scan the entries in order and, in each, its keywords in order; return at the first keyword found. */
  method DetectTask(userInput: string) returns (feature: Option<Feature>)
    ensures feature == Detect(userInput)
  {
    var text := ToLower(userInput);
    var i := 0;
    while i < |FEATURES|
      invariant 0 <= i <= |FEATURES|
      invariant forall j :: 0 <= j < i ==> !Triggers(FEATURES[j], text)
    {
      var keywords := FEATURES[i].keywords;
      var k := 0;
      while k < |keywords|
        invariant 0 <= k <= |keywords|
        invariant forall m :: 0 <= m < k ==> !Contains(text, keywords[m])
      {
        if Contains(text, keywords[k]) {
          FirstMatchIsUnique(FEATURES, text, i);
          return Some(FEATURES[i]);
        }
        k := k + 1;
      }
      i := i + 1;
    }
    return None;
  }

  /** Detection lower-cases its input first, so the case of the input does not matter. */
  lemma DetectIgnoresCase(userInput: string)
    ensures Detect(ToLower(userInput)) == Detect(userInput)
  {
    ToLowerIdempotent(userInput);
  }

  /** "face swap video" contains "face swap", a keyword of the first entry, so it selects image face swapping. */
  lemma FaceSwapVideoSelectsImageFaceSwap(userInput: string)
    requires Contains(ToLower(userInput), "face swap video")
    ensures Detect(userInput) == Some(IMAGE_FACE_SWAP)
  {
    var text := ToLower(userInput);
    assert "face swap video" == "face swap" + " video";
    ContainsPrefixOfPattern(text, "face swap", " video");
    assert Contains(text, FEATURES[0].keywords[0]);
    FirstMatchIsUnique(FEATURES, text, 0);
  }

  // ---------------------------------------------------------------------------
  // Input sufficiency
  // ---------------------------------------------------------------------------

  /** The four input kinds, checked in the order declared. */
  datatype Modality = Image | Video | Audio | Text

  const CHECK_ORDER: seq<Modality> := [Image, Video, Audio, Text]

  /** The token that names m in an inputType and in the user's text. */
  function Name(m: Modality): string {
    match m
    case Image => "image"
    case Video => "video"
    case Audio => "audio"
    case Text => "text"
  }

  /** The question asked when m is missing. */
  function Prompt(m: Modality): string {
    match m
    case Image => "Please provide the image."
    case Video => "Please provide the video."
    case Audio => "Please provide the audio."
    case Text => "Please provide the text content."
  }

  /** The position of m in the checking order. */
  function Rank(m: Modality): (n: nat)
    ensures n < |CHECK_ORDER| && CHECK_ORDER[n] == m
  {
    match m
    case Image => 0
    case Video => 1
    case Audio => 2
    case Text => 3
  }

  /** Different kinds have different questions: they differ right after "Please provide the ". */
  lemma PromptInjective(m: Modality, n: Modality)
    ensures Prompt(m) == Prompt(n) ==> m == n
  {
    assert Prompt(m)[19] == Name(m)[0];
    assert Prompt(n)[19] == Name(n)[0];
  }

  /** Every question is at most 32 characters long. */
  lemma PromptIsShort(m: Modality)
    ensures |Prompt(m)| <= 32
  {
  }

  /**
    The task needs m and the input seems not to supply it: the name of m occurs
    in inputType and, for the media kinds, not in the lower-cased input; for
    text, the stripped input is shorter than five characters.
   */
  predicate Lacks(m: Modality, inputType: string, userInput: string) {
    Contains(inputType, Name(m)) &&
    if m == Text then |Strip(userInput)| < 5 else !Contains(ToLower(userInput), Name(m))
  }

  /** The kinds the input lacks for a task of the given inputType. */
  function Lacking(inputType: string, userInput: string): set<Modality> {
    set m | m in CHECK_ORDER && Lacks(m, inputType, userInput)
  }

  /** A kind is in Lacking exactly when it is lacking. */
  lemma LackingMembers(inputType: string, userInput: string, m: Modality)
    ensures m in Lacking(inputType, userInput) <==> Lacks(m, inputType, userInput)
  {
    assert m == CHECK_ORDER[Rank(m)];
  }

  /** The kinds of ms that are in lacking, in the order of ms. */
  function Asked(ms: seq<Modality>, lacking: set<Modality>): seq<Modality>
    decreases |ms|
  {
    if ms == [] then []
    else if ms[0] in lacking then [ms[0]] + Asked(ms[1..], lacking)
    else Asked(ms[1..], lacking)
  }

  /** The questions for the kinds ks, one each, in the order of ks. */
  function Prompts(ks: seq<Modality>): (q: seq<string>)
    ensures |q| == |ks| && forall i :: 0 <= i < |ks| ==> q[i] == Prompt(ks[i])
  {
    seq(|ks|, i requires 0 <= i < |ks| => Prompt(ks[i]))
  }

  /** The questions missing_inputs asks: one per lacking kind, in checking order. */
  function Missing(inputType: string, userInput: string): seq<string> {
    Prompts(Asked(CHECK_ORDER, Lacking(inputType, userInput)))
  }

  /** The question of m when the check for m holds, and nothing otherwise. */
  function AskIf(check: bool, m: Modality): seq<string> {
    if check then [Prompt(m)] else []
  }

  /** The questions in checking order, spelt out as the four checks. */
  lemma QuestionsInCheckOrder(lacking: set<Modality>)
    ensures Prompts(Asked(CHECK_ORDER, lacking)) ==
            AskIf(Image in lacking, Image) + AskIf(Video in lacking, Video)
            + AskIf(Audio in lacking, Audio) + AskIf(Text in lacking, Text)
  {
    var ms := CHECK_ORDER;
    assert ms[1..] == [Video, Audio, Text];
    assert ms[1..][1..] == [Audio, Text];
    assert ms[1..][1..][1..] == [Text];
    assert ms[1..][1..][1..][1..] == [];
    var ks := Asked(CHECK_ORDER, lacking);
    assert Prompts(ks) == AskIf(Image in lacking, Image) + AskIf(Video in lacking, Video)
            + AskIf(Audio in lacking, Audio) + AskIf(Text in lacking, Text);
  }

  /** Missing, spelt out as the four checks of missing_inputs in their order. */
  lemma MissingByChecks(inputType: string, userInput: string)
    ensures Missing(inputType, userInput) ==
            AskIf(Contains(inputType, "image") && !Contains(ToLower(userInput), "image"), Image)
            + AskIf(Contains(inputType, "video") && !Contains(ToLower(userInput), "video"), Video)
            + AskIf(Contains(inputType, "audio") && !Contains(ToLower(userInput), "audio"), Audio)
            + AskIf(Contains(inputType, "text") && |Strip(userInput)| < 5, Text)
  {
    var lacking := Lacking(inputType, userInput);
    LackingMembers(inputType, userInput, Image);
    LackingMembers(inputType, userInput, Video);
    LackingMembers(inputType, userInput, Audio);
    LackingMembers(inputType, userInput, Text);
    QuestionsInCheckOrder(lacking);
  }

  /** missing_inputs: four checks in a fixed order, each appending its question to the list. */
  method MissingInputs(inputType: string, userInput: string) returns (missing: seq<string>)
    ensures missing == Missing(inputType, userInput)
  {
    missing := [];
    var text := ToLower(userInput);

    if Contains(inputType, "image") && !Contains(text, "image") {
      missing := missing + ["Please provide the image."];
    }
    ghost var sofar := AskIf(Contains(inputType, "image") && !Contains(text, "image"), Image);
    assert missing == sofar;
    if Contains(inputType, "video") && !Contains(text, "video") {
      missing := missing + ["Please provide the video."];
    }
    sofar := sofar + AskIf(Contains(inputType, "video") && !Contains(text, "video"), Video);
    assert missing == sofar;
    if Contains(inputType, "audio") && !Contains(text, "audio") {
      missing := missing + ["Please provide the audio."];
    }
    sofar := sofar + AskIf(Contains(inputType, "audio") && !Contains(text, "audio"), Audio);
    assert missing == sofar;
    if Contains(inputType, "text") && |Strip(userInput)| < 5 {
      missing := missing + ["Please provide the text content."];
    }
    sofar := sofar + AskIf(Contains(inputType, "text") && |Strip(userInput)| < 5, Text);
    assert missing == sofar;
    MissingByChecks(inputType, userInput);
  }

  /** A kind is asked exactly when it is listed and lacking. */
  lemma {:induction false} AskedMembers(ms: seq<Modality>, lacking: set<Modality>)
    ensures forall m :: m in Asked(ms, lacking) <==> m in ms && m in lacking
    decreases |ms|
  {
    if ms != [] {
      AskedMembers(ms[1..], lacking);
      assert ms == [ms[0]] + ms[1..];
    }
  }

  /** Kinds listed in strictly increasing rank are asked in strictly increasing rank. */
  lemma {:induction false} AskedAscend(ms: seq<Modality>, lacking: set<Modality>)
    requires forall i, j :: 0 <= i < j < |ms| ==> Rank(ms[i]) < Rank(ms[j])
    ensures |Asked(ms, lacking)| <= |ms|
    ensures var ks := Asked(ms, lacking);
            forall a, b :: 0 <= a < b < |ks| ==> Rank(ks[a]) < Rank(ks[b])
    decreases |ms|
  {
    if ms != [] {
      var rest := Asked(ms[1..], lacking);
      AskedAscend(ms[1..], lacking);
      AskedMembers(ms[1..], lacking);
      if ms[0] in lacking {
        var ks := [ms[0]] + rest;
        forall a, b | 0 <= a < b < |ks|
          ensures Rank(ks[a]) < Rank(ks[b])
        {
          if a == 0 {
            assert ks[b] == rest[b - 1] && rest[b - 1] in rest;
            var j :| 0 <= j < |ms[1..]| && ms[1..][j] == ks[b];
            assert ks[b] == ms[j + 1];
          } else {
            assert ks[a] == rest[a - 1] && ks[b] == rest[b - 1];
          }
        }
      }
    }
  }

  /** The question for kind m is asked exactly when m is lacking. */
  lemma MissingIff(inputType: string, userInput: string, m: Modality)
    ensures Prompt(m) in Missing(inputType, userInput) <==> Lacks(m, inputType, userInput)
  {
    var ks := Asked(CHECK_ORDER, Lacking(inputType, userInput));
    AskedMembers(CHECK_ORDER, Lacking(inputType, userInput));
    assert m == CHECK_ORDER[Rank(m)];
    if Prompt(m) in Prompts(ks) {
      var i :| 0 <= i < |ks| && Prompts(ks)[i] == Prompt(m);
      PromptInjective(m, ks[i]);
    }
    if m in ks {
      var i :| 0 <= i < |ks| && ks[i] == m;
      assert Prompts(ks)[i] == Prompt(m);
    }
  }

  /** Questions asked in checking order are in increasing rank, so there are at most four and none twice. */
  lemma QuestionsOrdered(lacking: set<Modality>)
    ensures var q := Prompts(Asked(CHECK_ORDER, lacking));
            |q| <= 4 &&
            (forall a :: 0 <= a < |q| ==> exists m :: m in lacking && q[a] == Prompt(m)) &&
            (forall a, b, m, n :: 0 <= a < b < |q| && q[a] == Prompt(m) && q[b] == Prompt(n) ==> Rank(m) < Rank(n)) &&
            (forall a, b :: 0 <= a < b < |q| ==> q[a] != q[b])
  {
    var ks := Asked(CHECK_ORDER, lacking);
    var q := Prompts(ks);
    AskedAscend(CHECK_ORDER, lacking);
    AskedMembers(CHECK_ORDER, lacking);
    forall a | 0 <= a < |q|
      ensures exists m :: m in lacking && q[a] == Prompt(m)
    {
      var m := ks[a];
      assert m in ks;
      assert m in lacking && q[a] == Prompt(m);
    }
    QuestionsRankOrdered(lacking);
    forall a, b | 0 <= a < b < |q|
      ensures q[a] != q[b]
    {
      PromptInjective(ks[a], ks[b]);
    }
  }

  /** Questions asked in checking order are asked in increasing rank of their kinds. */
  lemma QuestionsRankOrdered(lacking: set<Modality>)
    ensures var q := Prompts(Asked(CHECK_ORDER, lacking));
            forall a, b, m, n :: 0 <= a < b < |q| && q[a] == Prompt(m) && q[b] == Prompt(n) ==> Rank(m) < Rank(n)
  {
    var ks := Asked(CHECK_ORDER, lacking);
    var q := Prompts(ks);
    AskedAscend(CHECK_ORDER, lacking);
    forall a, b, m, n | 0 <= a < b < |q| && q[a] == Prompt(m) && q[b] == Prompt(n)
      ensures Rank(m) < Rank(n)
    {
      PromptInjective(m, ks[a]);
      PromptInjective(n, ks[b]);
    }
  }

  /**
    Every question is the question of a lacking kind, and they come in checking
    order, so there are at most four and none is asked twice.
   */
  lemma MissingOrdered(inputType: string, userInput: string)
    ensures var q := Missing(inputType, userInput);
            |q| <= 4 &&
            (forall a :: 0 <= a < |q| ==> exists m :: Lacks(m, inputType, userInput) && q[a] == Prompt(m)) &&
            (forall a, b, m, n :: 0 <= a < b < |q| && q[a] == Prompt(m) && q[b] == Prompt(n) ==> Rank(m) < Rank(n)) &&
            (forall a, b :: 0 <= a < b < |q| ==> q[a] != q[b])
  {
    var lacking := Lacking(inputType, userInput);
    QuestionsOrdered(lacking);
    forall m | m in lacking
      ensures Lacks(m, inputType, userInput)
    {
      LackingMembers(inputType, userInput, m);
    }
  }

  /** No list of questions is the rephrase question alone: every question is shorter than it. */
  lemma PromptsAreNotRephrase(ks: seq<Modality>)
    ensures Prompts(ks) != [REPHRASE]
  {
    if |ks| == 1 {
      PromptIsShort(ks[0]);
      assert Prompts(ks)[0] == Prompt(ks[0]);
      assert |REPHRASE| > 40;
    }
  }

  // ---------------------------------------------------------------------------
  // The planning decision
  // ---------------------------------------------------------------------------

  /** The planner's answer: the questions still open, or the plan for the detected task. */
  datatype Decision =
    | Insufficient(questions: seq<string>)
    | Sufficient(taskName: string, inputType: string, outputModality: string,
                 extractedConstraints: map<string, string>, requiredAgents: seq<string>)

  /** The single question asked when no task is recognised. */
  const REPHRASE: string := "I could not clearly understand your request. Can you please rephrase?"

  /** planning_agent: detect the task, then ask for what is missing or hand back the catalog entry's plan. */
  function PlanningAgent(userInput: string): (d: Decision)
    ensures d.Insufficient? ==> 1 <= |d.questions| <= 4
    ensures d.Sufficient? ==> Detect(userInput).Some? && forall m :: !Lacks(m, d.inputType, userInput)
  {
    match Detect(userInput)
    case None => Insufficient([REPHRASE])
    case Some(f) =>
      var missing := Missing(f.inputType, userInput);
      MissingOrdered(f.inputType, userInput);
      var d := if |missing| > 0 then Insufficient(missing)
               else Sufficient(f.taskName, f.inputType, f.outputModality, map[], f.requiredAgents);
      DecisionOfMissing(f, userInput, d);
      d
  }

  /** The rephrase question is asked exactly when no task is detected. */
  lemma RephraseIffNoTask(userInput: string)
    ensures PlanningAgent(userInput) == Insufficient([REPHRASE]) <==> Detect(userInput).None?
  {
    if Detect(userInput).Some? {
      var f := Detect(userInput).value;
      PromptsAreNotRephrase(Asked(CHECK_ORDER, Lacking(f.inputType, userInput)));
    }
  }

  /**
    With a task detected, the answer asks exactly the questions missing_inputs
    lists, which are those of the lacking kinds, when there are any, and
    otherwise is the entry's plan with no extracted constraints.
   */
  lemma DetectedTaskDecision(userInput: string)
    requires Detect(userInput).Some?
    ensures var f := Detect(userInput).value;
            var d := PlanningAgent(userInput);
            (d.Sufficient? <==> forall m :: !Lacks(m, f.inputType, userInput)) &&
            (d.Insufficient? ==> forall m :: Prompt(m) in d.questions <==> Lacks(m, f.inputType, userInput)) &&
            (d.Insufficient? ==> d.questions == Missing(f.inputType, userInput)) &&
            (d.Sufficient? ==> d == Sufficient(f.taskName, f.inputType, f.outputModality, map[], f.requiredAgents))
  {
    var f := Detect(userInput).value;
    DecisionOfMissing(f, userInput, PlanningAgent(userInput));
  }

  /** The decision taken for a detected entry f, from the questions its checks raise. */
  lemma DecisionOfMissing(f: Feature, userInput: string, d: Decision)
    requires var missing := Missing(f.inputType, userInput);
             d == if |missing| > 0 then Insufficient(missing)
                  else Sufficient(f.taskName, f.inputType, f.outputModality, map[], f.requiredAgents)
    ensures (d.Sufficient? <==> forall m :: !Lacks(m, f.inputType, userInput)) &&
            (d.Insufficient? ==> forall m :: Prompt(m) in d.questions <==> Lacks(m, f.inputType, userInput)) &&
            (d.Insufficient? ==> d.questions == Missing(f.inputType, userInput)) &&
            (d.Sufficient? ==> d == Sufficient(f.taskName, f.inputType, f.outputModality, map[], f.requiredAgents))
  {
    forall m
      ensures Prompt(m) in Missing(f.inputType, userInput) <==> Lacks(m, f.inputType, userInput)
    {
      MissingIff(f.inputType, userInput, m);
    }
    if |Missing(f.inputType, userInput)| > 0 {
      MissingOrdered(f.inputType, userInput);
      var q := Missing(f.inputType, userInput);
      var m :| Lacks(m, f.inputType, userInput) && q[0] == Prompt(m);
    }
  }

  /** A plan is only ever the plan of a catalog entry. */
  lemma SufficientIsCatalogEntry(userInput: string)
    requires PlanningAgent(userInput).Sufficient?
    ensures var d := PlanningAgent(userInput);
            exists i :: 0 <= i < |FEATURES| && d.taskName == FEATURES[i].taskName
                     && d.inputType == FEATURES[i].inputType
                     && d.outputModality == FEATURES[i].outputModality
                     && d.requiredAgents == FEATURES[i].requiredAgents
                     && d.extractedConstraints == map[]
  {
  }

  /** Each check gives the same answer on the lower-cased input. */
  lemma LacksIgnoresCase(m: Modality, inputType: string, userInput: string)
    ensures Lacks(m, inputType, ToLower(userInput)) == Lacks(m, inputType, userInput)
  {
    if m == Text {
      StripToLower(userInput);
      assert |Strip(ToLower(userInput))| == |Strip(userInput)|;
    } else {
      ToLowerIdempotent(userInput);
    }
  }

  lemma LackingIgnoresCase(inputType: string, userInput: string)
    ensures Lacking(inputType, ToLower(userInput)) == Lacking(inputType, userInput)
  {
    forall m
      ensures m in Lacking(inputType, ToLower(userInput)) <==> m in Lacking(inputType, userInput)
    {
      LackingMembers(inputType, ToLower(userInput), m);
      LackingMembers(inputType, userInput, m);
      LacksIgnoresCase(m, inputType, userInput);
    }
  }

  /** Neither the planner's checks nor its detection depend on the case of the input. */
  lemma PlanningAgentIgnoresCase(userInput: string)
    ensures PlanningAgent(ToLower(userInput)) == PlanningAgent(userInput)
  {
    DetectIgnoresCase(userInput);
    if Detect(userInput).Some? {
      LackingIgnoresCase(Detect(userInput).value.inputType, userInput);
    }
  }
}
