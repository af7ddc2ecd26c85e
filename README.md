# Planning agent of the media-editing assistant, in Dafny

This project models the rule-based planning layer of a media-editing assistant. It also models the helper that splices a script for voice cloning.

- **Feature catalog.** A fixed, ordered list of task descriptors. Each has a task name, the input modalities it needs joined with "+", the modality it produces, the agents that carry it out, and its trigger keywords.
- **Task detection.** The user's text is lower-cased. The first catalog entry with a keyword occurring in it is the detected task.
- **Input sufficiency check.** The entry's input type names the media it needs. One question is asked for each needed medium that the text does not mention, in the order image, video, audio. A last question asks for text when the stripped input is shorter than five characters.
- **Planning decision.** The planner combines the two steps. It asks the user to rephrase when no task is detected. It asks the open questions when inputs are missing. Otherwise it returns a plan copied from the catalog entry, with no extracted constraints.
- **Router.** A plan record from a language-model planner is routed three ways. It is rejected when not relevant. It goes to clarification when its confidence is absent or below 0.6. Otherwise it goes to the task the plan names.
- **Script splicing.** A script is cut at its `{AUDIO}` placeholders. Each non-blank segment, stripped, is synthesised in the cloned voice. The reference clip is inserted after every segment but the last.

Modules:

- `Wrappers` holds `Option`.
- `Strings` holds the Python string operations the core calls: substring search, `split`, ASCII `lower` and ASCII `strip`. It also holds `Count` and `Join`, which the source does not call; they serve only to state properties of the split (one part more than `s.count(sep)`, the parts join back into `s`). Search, count, split and join are generic over sequences, so the splicing proofs reuse them on audio.
- `Features` holds the catalog and its well-formedness lemmas.
- `Planner` holds detection, the sufficiency check and the decision.
- `Router` holds the plan record and the route.
- `VoiceCloner` holds the splicing.

How each source operation is modelled:

- `detect_task` and `missing_inputs` build their results step by step. They are methods, each proved equal to a specification function (`Detect`, `Missing`). The lemmas are stated about those functions.
- `planning_agent` and `route_plan` are functions.
- `render_script_with_reference` is a method that splits the script. Its accumulating loop is the method `SpliceSegments`, proved equal to the join of the segments' clips around reference pieces.

Audio is a sequence of pieces. Each piece is either `Synth(text)`, the cloner's rendering of a text, or `Ref`, the reference clip. Appending audio is appending pieces.

## Model

| member | source | states |
|---|---|---|
| Strings.Find | ai_tool/planning_agent/planner.py:8 | the result is the leftmost index at which the pattern occurs, and it is None exactly when the pattern occurs nowhere |
| Strings.Contains | ai_tool/planning_agent/planner.py:8 | the substring test `p in s` holds exactly when p occurs in s at some index |
| Strings.Split | ai_tool/planning_agent/voice_cloner.py:74 | `s.split(sep)` has at least one part, its parts joined with sep give back s, and no part contains sep |
| Strings.SplitCount | ai_tool/planning_agent/voice_cloner.py:74 | the split has exactly one part more than `s.count(sep)` counts non-overlapping occurrences |
| Strings.SplitJoin | ai_tool/planning_agent/voice_cloner.py:74 | splitting the join of sep-free parts, for a separator that cannot overlap itself, gives back the parts |
| Strings.ToLower | ai_tool/planning_agent/planner.py:5 | lower-casing keeps the length and lower-cases each character |
| Strings.ToLowerIdempotent | ai_tool/planning_agent/planner.py:5 | lower-cased text is lower-case, so lower-casing it again changes nothing |
| Strings.StripSpec | ai_tool/planning_agent/voice_cloner.py:80 | the contract of `Strings.Strip`, the model of `str.strip()`: `strip` yields the slice between the leading and the trailing whitespace; the slice neither starts nor ends with whitespace and is empty exactly when the text is blank |
| Strings.StripToLower | ai_tool/planning_agent/planner.py:26 | stripping the lower-cased text is lower-casing the stripped text |
| Features.TaskNamesDistinct | ai_tool/planning_agent/features.py:3-66 | no two catalog entries share a task name |
| Features.KeywordsWellFormed | ai_tool/planning_agent/features.py:7-70 | every entry has a keyword, and every keyword is unchanged by lower-casing |
| Features.OutputsWellFormed | ai_tool/planning_agent/features.py:5-69 | every output modality is image, video or audio, and every entry names at least one agent |
| Features.SplitModalityList | ai_tool/planning_agent/features.py:4-67 | a "+"-joined list of modality names splits back into exactly that list |
| Features.CatalogInputTypeIsModalityList | ai_tool/planning_agent/features.py:4-67 | each of the seven input-type values the catalog uses splits at "+" into modality names only |
| Features.InputTypesAreModalityLists | ai_tool/planning_agent/features.py:4-67 | every entry's input type is a non-empty "+"-joined list of names drawn from image, video, audio and text |
| Planner.FirstMatch | ai_tool/planning_agent/planner.py:6-9 | the result is an entry, from the starting index on, that the text triggers, with no triggering entry before it; it is None exactly when no entry from there on triggers |
| Planner.Detect | ai_tool/planning_agent/planner.py:4-10 | a detected entry is a catalog entry with a keyword that occurs in the lower-cased input, and no earlier entry has such a keyword; the result is None exactly when no keyword of any entry occurs |
| Planner.DetectTask | ai_tool/planning_agent/planner.py:4-10 | the nested scan over entries and keywords, returning at the first keyword found, returns the entry Detect selects |
| Planner.DetectIgnoresCase | ai_tool/planning_agent/planner.py:5 | detection gives the same entry for the input and for its lower-cased form |
| Planner.FaceSwapVideoSelectsImageFaceSwap | ai_tool/planning_agent/planner.py:6-9 | any input containing "face swap video", in any case, selects image face swapping, because that entry comes first and "face swap" is its keyword |
| Planner.MissingInputs | ai_tool/planning_agent/planner.py:13-29 | the four checks with their appends produce exactly the questions Missing lists |
| Planner.MissingByChecks | ai_tool/planning_agent/planner.py:17-27 | the questions are the image, video, audio and text questions, in that order, each present exactly when the source's condition for it holds |
| Planner.MissingIff | ai_tool/planning_agent/planner.py:17-27 | a kind's question is asked exactly when its name occurs in the input type and, for the media, not in the lower-cased input, or, for text, the stripped input is shorter than five characters |
| Planner.PromptInjective | ai_tool/planning_agent/planner.py:18-27 | the four questions are pairwise different |
| Planner.QuestionsOrdered | ai_tool/planning_agent/planner.py:14-29 | for any set of lacking kinds the questions number at most four, each belongs to a lacking kind, they follow checking order, and none repeats |
| Planner.QuestionsRankOrdered | ai_tool/planning_agent/planner.py:14-29 | questions that come earlier belong to kinds that are checked earlier |
| Planner.MissingOrdered | ai_tool/planning_agent/planner.py:14-29 | missing_inputs asks at most four questions, each for a lacking kind, in the order image, video, audio, text, with no duplicates |
| Planner.PromptsAreNotRephrase | ai_tool/planning_agent/planner.py:39 | no list of missing-input questions equals the single rephrase question |
| Planner.PlanningAgent | ai_tool/planning_agent/planner.py:32-58 | the decision asks one to four questions, or is a plan; a plan is returned only for a detected task for which none of the four checks finds anything lacking |
| Planner.RephraseIffNoTask | ai_tool/planning_agent/planner.py:33-41 | the decision is the single rephrase question exactly when no task is detected |
| Planner.DetectedTaskDecision | ai_tool/planning_agent/planner.py:43-58 | for a detected task the decision is sufficient exactly when nothing is lacking; an insufficient decision's questions are the list missing_inputs returns, which holds exactly the lacking kinds' questions; a sufficient one copies the entry's task name, input type, output modality and agents, with empty constraints |
| Planner.DecisionOfMissing | ai_tool/planning_agent/planner.py:45-58 | the same facts, for the questions-or-plan choice made from the missing list of any entry: sufficient exactly when nothing is lacking, the questions are that missing list, a plan copies the entry |
| Planner.SufficientIsCatalogEntry | ai_tool/planning_agent/planner.py:51-58 | every sufficient plan carries the fields of some catalog entry and no constraints |
| Planner.LacksIgnoresCase | ai_tool/planning_agent/planner.py:15-26 | each of the four checks gives the same answer on the lower-cased input |
| Planner.PlanningAgentIgnoresCase | ai_tool/planning_agent/planner.py:32-58 | the whole decision is the same for the input and for its lower-cased form |
| Router.RoutePlan | ai_tool/planning_agent/router.py:1-8 | the route is "reject", "clarification" or the plan's task name; "reject" when not relevant; "clarification" when relevant with confidence absent or below the threshold; the task name otherwise |
| Router.RouteIgnoresOtherFields | ai_tool/planning_agent/router.py:1-8 | plans that agree on relevance, confidence and task name get the same route, whatever their other fields hold |
| Router.RouteMonotoneInConfidence | ai_tool/planning_agent/router.py:5-8 | raising the confidence of a plan routed to its task keeps it routed there |
| Router.RouteAtThreshold | ai_tool/planning_agent/router.py:5-8 | a relevant plan whose confidence is exactly 0.6 goes to its task |
| Router.RouteDistinguishesCases | ai_tool/planning_agent/router.py:1-8 | when the task name is not a route word, each of the three outcomes occurs exactly in its own case |
| Router.CatalogNamesAreNotRoutes | ai_tool/planning_agent/router.py:2-8 | no catalog task name is "reject" or "clarification" |
| VoiceCloner.SegmentAudio | ai_tool/planning_agent/voice_cloner.py:80-83 | a segment contributes nothing exactly when it is blank, and otherwise one clip of its stripped text |
| VoiceCloner.RenderScriptWithReference | ai_tool/planning_agent/voice_cloner.py:62-88 | the composed audio is the segments' clips, with one reference piece between each two, for the script's split at the placeholders |
| VoiceCloner.SpliceSegments | ai_tool/planning_agent/voice_cloner.py:76-86 | starting from no audio, appending each segment's clip and, after all but the last, the reference piece gives the join of the clips around reference pieces |
| VoiceCloner.ScriptSegments | ai_tool/planning_agent/voice_cloner.py:74 | the script splits into one segment more than it has placeholders, and the segments joined with the placeholder give back the script |
| VoiceCloner.PlaceholderNoBorder | ai_tool/planning_agent/voice_cloner.py:20 | "{AUDIO}" cannot overlap itself |
| VoiceCloner.RenderedRefCount | ai_tool/planning_agent/voice_cloner.py:84-86 | the audio holds exactly as many reference pieces as the script holds placeholders |
| VoiceCloner.RenderedSplitsIntoClips | ai_tool/planning_agent/voice_cloner.py:79-86 | cutting the audio at its reference pieces gives back the clips of the script's segments, in order, so the references stand where the placeholders stood |
| VoiceCloner.RenderedSpoken | ai_tool/planning_agent/voice_cloner.py:79-86 | the synthesised pieces speak the stripped non-blank segments, in script order |
| VoiceCloner.RenderedEmptyIff | ai_tool/planning_agent/voice_cloner.py:76-86 | the audio is empty exactly when the script has no placeholder and is blank |
| VoiceCloner.RenderJoinedTexts | ai_tool/planning_agent/voice_cloner.py:74-86 | placeholder-free texts joined with placeholders render as their clips joined with reference pieces |

## Left out

- Reference audio: `load_reference_audio` reads a file. The reference clip is the abstract piece `Ref`.
- `save_audio` and the command-line entry point are file output and argument parsing, and are not part of this model.
- The cloner is not modelled. This covers `VoiceCloner.synthesize`, `StubVoiceCloner` with gTTS, and its fallback to 500 ms of silence, which are foreign library calls and exception handling. A synthesised clip is the uninterpreted piece `Synth(text)`.
- Audio concatenation with pydub is modelled as appending sequences of pieces; durations and sample data are not modelled.
- The language-model prompt assembled in ai_tool/planning_agent/propmt.py is plain string formatting with no decisions. It is not part of this model.
- The pydantic validation and coercion of the plan record is library behaviour. Only the field shape of the record is modelled.
- Strings.ToLower: covers ASCII letters only. Python's `str.lower` also maps non-ASCII letters.
- Strings.Strip: removes ASCII whitespace only (codes 9-13 and 28-32). Python's `str.strip` also removes Unicode whitespace.
- Router.RoutePlan: the confidence is a real number, so rounding, NaN and the infinities are not modelled. In the source a NaN confidence fails the `< 0.6` test, so a relevant plan with a NaN confidence is sent to its task; the model has no such value.
- Router.RoutePlan: follows the code on two points. A relevant, confident plan with no task name routes to `None`, because the code returns the absent task name. The threshold is the fixed constant 0.6, not a parameter.
- Strings.Split: the source's separator is always the non-empty placeholder, so the `ValueError` Python raises for an empty separator is not modelled.
