/**
  The static task catalog: an ordered list of task descriptors.  Order matters,
  because task detection returns the first entry that matches.
 */
module Features {
  import opened Strings

  /**
    One catalog entry.  inputType names the required input modalities, joined
    with "+"; keywords are the trigger phrases, tried in the order listed.
   */
  datatype Feature = Feature(
    taskName: string,
    inputType: string,
    outputModality: string,
    requiredAgents: seq<string>,
    keywords: seq<string>)

  // The entries, in catalog order.
  const IMAGE_FACE_SWAP := Feature("image face swapping", "image", "image",
                                   ["image_processing_agent"], ["face swap", "swap face", "change face"])
  const VIDEO_FACE_SWAP := Feature("video face swapping", "video", "video",
                                   ["video_processing_agent"], ["face swap video", "swap faces in video"])
  const COLOUR_CONVERSION := Feature("colour image to black and white and vice versa", "image", "image",
                                     ["image_processing_agent"], ["black and white", "grayscale", "colorize"])
  const VOICE_CLONING := Feature("voice cloning", "audio+text", "audio",
                                 ["voice_cloning_agent"], ["voice clone", "clone voice"])
  const RAFI_VOICE := Feature("rafi voice conversion", "audio", "audio",
                              ["voice_conversion_agent"], ["rafi voice", "convert to rafi"])
  const TEXT_TO_IMAGE := Feature("text_to_image", "text", "image",
                                 ["text_to_image_agent"], ["generate image", "text to image"])
  const TEXT_TO_VIDEO := Feature("text_to_video", "text", "video",
                                 ["video_gen_agent"], ["generate video", "text to video"])
  const TALKING_AVATAR := Feature("photo_talking_avatar", "image+audio+text", "video",
                                  ["talking_avatar_agent"], ["talking photo", "photo talking"])
  const ACTION_AVATAR := Feature("action_avatar", "image+text", "video",
                                 ["action_avatar_agent"], ["animate avatar", "avatar action"])
  const BACKGROUND_CHANGE := Feature("background_changing", "image+text", "image",
                                     ["background_editor_agent"], ["change background", "replace background"])

  const FEATURES: seq<Feature> := [
    IMAGE_FACE_SWAP,
    VIDEO_FACE_SWAP,
    COLOUR_CONVERSION,
    VOICE_CLONING,
    RAFI_VOICE,
    TEXT_TO_IMAGE,
    TEXT_TO_VIDEO,
    TALKING_AVATAR,
    ACTION_AVATAR,
    BACKGROUND_CHANGE
  ]

  /** The four content kinds a request may involve, by name. */
  const MODALITY_NAMES: set<string> := {"image", "video", "audio", "text"}

  /** The separator of the modality tokens in an inputType. */
  const TOKEN_SEPARATOR: string := "+"

  /** No two catalog entries share a task name. */
  lemma TaskNamesDistinct()
    ensures forall i, j :: 0 <= i < j < |FEATURES| ==> FEATURES[i].taskName != FEATURES[j].taskName
  {
  }

  /** No keyword of f contains an upper-case letter. */
  predicate KeywordsLowerCase(f: Feature) {
    forall kw :: kw in f.keywords ==> IsLowerCase(kw)
  }

  lemma ImageFaceSwapKeywordsLowerCase() ensures KeywordsLowerCase(IMAGE_FACE_SWAP) {}
  lemma VideoFaceSwapKeywordsLowerCase() ensures KeywordsLowerCase(VIDEO_FACE_SWAP) {}
  lemma ColourConversionKeywordsLowerCase() ensures KeywordsLowerCase(COLOUR_CONVERSION) {}
  lemma VoiceCloningKeywordsLowerCase() ensures KeywordsLowerCase(VOICE_CLONING) {}
  lemma RafiVoiceKeywordsLowerCase() ensures KeywordsLowerCase(RAFI_VOICE) {}
  lemma TextToImageKeywordsLowerCase() ensures KeywordsLowerCase(TEXT_TO_IMAGE) {}
  lemma TextToVideoKeywordsLowerCase() ensures KeywordsLowerCase(TEXT_TO_VIDEO) {}
  lemma TalkingAvatarKeywordsLowerCase() ensures KeywordsLowerCase(TALKING_AVATAR) {}
  lemma ActionAvatarKeywordsLowerCase() ensures KeywordsLowerCase(ACTION_AVATAR) {}
  lemma BackgroundChangeKeywordsLowerCase() ensures KeywordsLowerCase(BACKGROUND_CHANGE) {}

  /** Every entry has a trigger phrase, and all of them are already lower-case, so they can match lower-cased input. */
  lemma KeywordsWellFormed()
    ensures forall i :: 0 <= i < |FEATURES| ==> |FEATURES[i].keywords| > 0
    ensures forall i, kw :: 0 <= i < |FEATURES| && kw in FEATURES[i].keywords ==> ToLower(kw) == kw
  {
    ImageFaceSwapKeywordsLowerCase();
    VideoFaceSwapKeywordsLowerCase();
    ColourConversionKeywordsLowerCase();
    VoiceCloningKeywordsLowerCase();
    RafiVoiceKeywordsLowerCase();
    TextToImageKeywordsLowerCase();
    TextToVideoKeywordsLowerCase();
    TalkingAvatarKeywordsLowerCase();
    ActionAvatarKeywordsLowerCase();
    BackgroundChangeKeywordsLowerCase();
    forall i, kw | 0 <= i < |FEATURES| && kw in FEATURES[i].keywords
      ensures ToLower(kw) == kw
    {
      assert KeywordsLowerCase(FEATURES[i]);
      LowerCaseFixed(kw);
    }
  }

  /** Every produced modality is a media kind and every entry names a downstream agent. */
  lemma OutputsWellFormed()
    ensures forall i :: 0 <= i < |FEATURES| ==> FEATURES[i].outputModality in {"image", "video", "audio"}
    ensures forall i :: 0 <= i < |FEATURES| ==> |FEATURES[i].requiredAgents| > 0
  {
  }

  /** The modality tokens of an inputType: the parts between its "+" separators. */
  function Tokens(inputType: string): seq<string> {
    Split(inputType, TOKEN_SEPARATOR)
  }

  /** inputType is a non-empty "+"-joined list of modality names. */
  predicate IsModalityList(inputType: string) {
    |Tokens(inputType)| > 0 && forall t :: t in Tokens(inputType) ==> t in MODALITY_NAMES
  }

  /** No modality name contains the separator. */
  lemma NameHasNoSeparator(name: string)
    requires name in MODALITY_NAMES
    ensures !Contains(name, TOKEN_SEPARATOR)
  {
    if Contains(name, TOKEN_SEPARATOR) {
      ContainsElements(name, TOKEN_SEPARATOR, 0);
    }
  }

  /** A "+"-joined list of modality names splits back into that list. */
  lemma {:induction false} SplitModalityList(names: seq<string>)
    requires |names| > 0
    requires forall k :: 0 <= k < |names| ==> names[k] in MODALITY_NAMES
    ensures Tokens(Join(names, TOKEN_SEPARATOR)) == names
  {
    forall k | 0 <= k < |names|
      ensures !Contains(names[k], TOKEN_SEPARATOR)
    {
      NameHasNoSeparator(names[k]);
    }
    SplitJoin(names, TOKEN_SEPARATOR);
  }

  /** One of the distinct inputType values the catalog uses. */
  predicate IsCatalogInputType(s: string) {
    || s == "image" || s == "video" || s == "audio" || s == "text"
    || s == "audio+text" || s == "image+text" || s == "image+audio+text"
  }

  lemma InputTypesListed()
    ensures forall i :: 0 <= i < |FEATURES| ==> IsCatalogInputType(FEATURES[i].inputType)
  {
  }

  /** Each inputType value the catalog uses splits at "+" into modality names. */
  lemma CatalogInputTypeIsModalityList(s: string)
    requires IsCatalogInputType(s)
    ensures IsModalityList(s)
  {
    var names: seq<string>;
    if s == "audio+text" {
      names := ["audio", "text"];
      assert Join(names, TOKEN_SEPARATOR) == "audio+text";
    } else if s == "image+text" {
      names := ["image", "text"];
      assert Join(names, TOKEN_SEPARATOR) == "image+text";
    } else if s == "image+audio+text" {
      names := ["image", "audio", "text"];
      assert Join(names, TOKEN_SEPARATOR) == "image+audio+text";
    } else {
      names := [s];
      assert Join(names, TOKEN_SEPARATOR) == s;
    }
    SplitModalityList(names);
  }

  /** Every inputType is a non-empty "+"-joined list of modality names. */
  lemma InputTypesAreModalityLists()
    ensures forall i :: 0 <= i < |FEATURES| ==> IsModalityList(FEATURES[i].inputType)
  {
    InputTypesListed();
    forall i | 0 <= i < |FEATURES|
      ensures IsModalityList(FEATURES[i].inputType)
    {
      CatalogInputTypeIsModalityList(FEATURES[i].inputType);
    }
  }
}
