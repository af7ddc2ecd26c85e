/**
  Script splicing for the voice cloner: a script is cut at its "{AUDIO}"
  placeholders; each non-blank segment, stripped, is synthesised in the cloned
  voice, and the reference clip is inserted where each placeholder stood.
  Audio is modelled as a sequence of pieces, each a synthesised clip (named by
  the text it speaks) or the reference clip; appending audio is appending
  pieces.
 */
module VoiceCloner {
  import opened Strings

  /** The marker in a script where the reference clip goes. */
  const PLACEHOLDER: string := "{AUDIO}"

  /** A piece of audio: the voice cloner's rendering of a text, or the reference clip. */
  datatype Piece = Synth(text: string) | Ref

  type Audio = seq<Piece>

  /** The audio for one segment: its stripped text synthesised, or nothing when that is empty. */
  function SegmentAudio(segment: string): (a: Audio)
    ensures a == [] <==> IsBlank(segment)
    ensures a != [] ==> a == [Synth(Strip(segment))]
  {
    if Strip(segment) == [] then [] else [Synth(Strip(segment))]
  }

  /** The audio of each segment, in order. */
  function Clips(segments: seq<string>): (cs: seq<Audio>)
    ensures |cs| == |segments| && forall i :: 0 <= i < |segments| ==> cs[i] == SegmentAudio(segments[i])
  {
    seq(|segments|, i requires 0 <= i < |segments| => SegmentAudio(segments[i]))
  }

  /**
    The audio a script renders to: the clips of its segments between the
    placeholders, with the reference clip between each two of them.
   */
  function Rendered(script: string): Audio {
    Join(Clips(Split(script, PLACEHOLDER)), [Ref])
  }

  /**
    render_script_with_reference: split the script at the placeholders and
    splice the segments' audio together.
   */
  method RenderScriptWithReference(scriptText: string) returns (final: Audio)
    ensures final == Rendered(scriptText)
  {
    var segments := Split(scriptText, PLACEHOLDER);
    final := SpliceSegments(segments);
  }

  /**
    The loop of render_script_with_reference: for each segment append its
    synthesised stripped text, if that is not empty, and, unless it is the last
    segment, the reference clip.
   */
  method SpliceSegments(segments: seq<string>) returns (final: Audio)
    ensures final == Join(Clips(segments), [Ref])
  {
    ghost var clips := Clips(segments);
    final := [];
    var i := 0;
    while i < |segments|
      invariant 0 <= i <= |segments|
      invariant final == RenderedUpTo(clips, i)
    {
      RenderedUpToStep(clips, i);
      ghost var before := final;
      var segment := Strip(segments[i]);
      ghost var clip := clips[i];
      assert clip == if segment == [] then [] else [Synth(segment)];
      if segment != [] {
        final := final + [Synth(segment)];
      } else {
        assert final + clip == final;
      }
      assert final == before + clip;
      if i != |segments| - 1 {
        final := final + [Ref];
      }
      i := i + 1;
    }
    if |clips| > 0 {
      RenderedUpToAll(clips);
    }
  }

  /**
    The audio composed after the first i clips: their join, followed by the
    reference piece that separates them from the next clip, if there is one.
   */
  function RenderedUpTo(clips: seq<Audio>, i: nat): Audio
    requires i <= |clips|
  {
    if i == 0 then [] else Join(clips[..i], [Ref]) + (if i < |clips| then [Ref] else [])
  }

  lemma RenderedUpToStep(clips: seq<Audio>, i: nat)
    requires i < |clips|
    ensures RenderedUpTo(clips, i + 1) == RenderedUpTo(clips, i) + clips[i] + (if i != |clips| - 1 then [Ref] else [])
  {
    assert clips[..i + 1] == clips[..i] + [clips[i]];
    if i > 0 {
      JoinSnoc(clips[..i], clips[i], [Ref]);
    }
  }

  lemma RenderedUpToAll(clips: seq<Audio>)
    requires |clips| > 0
    ensures RenderedUpTo(clips, |clips|) == Join(clips, [Ref])
  {
    assert clips[..|clips|] == clips;
  }

  // ---------------------------------------------------------------------------
  // Properties of the rendering
  // ---------------------------------------------------------------------------

  /** The placeholder cannot overlap itself: each shorter suffix starts with a letter or "}", never "{". */
  lemma PlaceholderNoBorder()
    ensures NoBorder(PLACEHOLDER)
  {
    forall d | 0 < d < |PLACEHOLDER|
      ensures PLACEHOLDER[d..] != PLACEHOLDER[..|PLACEHOLDER| - d]
    {
      assert PLACEHOLDER[d..][0] == PLACEHOLDER[d] != '{';
      assert PLACEHOLDER[..|PLACEHOLDER| - d][0] == '{';
    }
  }

  /** The script splits into one segment more than it has placeholders, and the segments join back into it. */
  lemma ScriptSegments(script: string)
    ensures |Split(script, PLACEHOLDER)| == Count(script, PLACEHOLDER) + 1
    ensures Join(Split(script, PLACEHOLDER), PLACEHOLDER) == script
  {
    SplitCount(script, PLACEHOLDER);
  }

  /** The number of reference pieces in a. */
  function RefCount(a: Audio): nat
    decreases |a|
  {
    if a == [] then 0 else (if a[0] == Ref then 1 else 0) + RefCount(a[1..])
  }

  lemma {:induction false} RefCountAppend(a: Audio, b: Audio)
    ensures RefCount(a + b) == RefCount(a) + RefCount(b)
    decreases |a|
  {
    if a != [] {
      assert (a + b)[0] == a[0];
      assert (a + b)[1..] == a[1..] + b;
      RefCountAppend(a[1..], b);
    } else {
      assert a + b == b;
    }
  }

  /** The texts of the synthesised pieces of a, in order. */
  function Spoken(a: Audio): seq<string>
    decreases |a|
  {
    if a == [] then []
    else match a[0]
      case Synth(t) => [t] + Spoken(a[1..])
      case Ref => Spoken(a[1..])
  }

  lemma {:induction false} SpokenAppend(a: Audio, b: Audio)
    ensures Spoken(a + b) == Spoken(a) + Spoken(b)
    decreases |a|
  {
    if a != [] {
      assert (a + b)[0] == a[0];
      assert (a + b)[1..] == a[1..] + b;
      SpokenAppend(a[1..], b);
    } else {
      assert a + b == b;
    }
  }

  /** The stripped texts of the segments that are not blank, in order. */
  function NonBlankTexts(segments: seq<string>): seq<string>
    decreases |segments|
  {
    if segments == [] then []
    else (if IsBlank(segments[0]) then [] else [Strip(segments[0])]) + NonBlankTexts(segments[1..])
  }

  /** Segment clips hold no reference piece. */
  predicate RefFree(parts: seq<Audio>) {
    forall k :: 0 <= k < |parts| ==> RefCount(parts[k]) == 0
  }

  lemma ClipsRefFree(segments: seq<string>)
    ensures RefFree(Clips(segments))
    ensures forall k :: 0 <= k < |segments| ==> !Contains(Clips(segments)[k], [Ref])
  {
    var cs := Clips(segments);
    forall k | 0 <= k < |segments|
      ensures RefCount(cs[k]) == 0 && !Contains(cs[k], [Ref])
    {
      if Contains(cs[k], [Ref]) {
        ContainsElements(cs[k], [Ref], 0);
      }
    }
  }

  /** Joining ref-free parts with one reference piece puts exactly one between each two of them. */
  lemma {:induction false} RefCountJoin(parts: seq<Audio>)
    requires |parts| > 0 && RefFree(parts)
    ensures RefCount(Join(parts, [Ref])) == |parts| - 1
    decreases |parts|
  {
    if |parts| > 1 {
      RefCountJoin(parts[1..]);
      RefCountAppend(parts[0] + [Ref], Join(parts[1..], [Ref]));
      RefCountAppend(parts[0], [Ref]);
    }
  }

  /** The synthesised texts of a join are those of its parts, in order. */
  lemma {:induction false} SpokenJoin(segments: seq<string>)
    requires |segments| > 0
    ensures Spoken(Join(Clips(segments), [Ref])) == NonBlankTexts(segments)
    decreases |segments|
  {
    var cs := Clips(segments);
    if |segments| == 1 {
      assert Join(cs, [Ref]) == SegmentAudio(segments[0]);
      assert NonBlankTexts(segments[1..]) == [];
    } else {
      assert Clips(segments[1..]) == cs[1..];
      SpokenJoin(segments[1..]);
      SpokenAppend(cs[0] + [Ref], Join(cs[1..], [Ref]));
      SpokenAppend(cs[0], [Ref]);
      assert Spoken(cs[0]) == (if IsBlank(segments[0]) then [] else [Strip(segments[0])]);
    }
  }

  /** The rendering holds exactly one reference piece per placeholder in the script. */
  lemma RenderedRefCount(script: string)
    ensures RefCount(Rendered(script)) == Count(script, PLACEHOLDER)
  {
    var segments := Split(script, PLACEHOLDER);
    ClipsRefFree(segments);
    RefCountJoin(Clips(segments));
    SplitCount(script, PLACEHOLDER);
  }

  /**
    The reference pieces stand exactly where the placeholders stood: cutting
    the rendering at its reference pieces gives back the clips of the script's
    segments, in order.
   */
  lemma RenderedSplitsIntoClips(script: string)
    ensures Split(Rendered(script), [Ref]) == Clips(Split(script, PLACEHOLDER))
  {
    var cs := Clips(Split(script, PLACEHOLDER));
    ClipsRefFree(Split(script, PLACEHOLDER));
    SplitJoin(cs, [Ref]);
  }

  /** The synthesised pieces speak the stripped non-blank segments, in script order. */
  lemma RenderedSpoken(script: string)
    ensures Spoken(Rendered(script)) == NonBlankTexts(Split(script, PLACEHOLDER))
  {
    SpokenJoin(Split(script, PLACEHOLDER));
  }

  /** A script renders to no audio at all exactly when it has no placeholder and is blank. */
  lemma RenderedEmptyIff(script: string)
    ensures Rendered(script) == [] <==> !Contains(script, PLACEHOLDER) && IsBlank(script)
  {
    RenderedRefCount(script);
    if Contains(script, PLACEHOLDER) {
      var i := Find(script, PLACEHOLDER).value;
      CountFirstOccurrence(script, PLACEHOLDER, i);
      assert RefCount(Rendered(script)) > 0;
    } else {
      assert Split(script, PLACEHOLDER) == [script];
      assert Rendered(script) == SegmentAudio(script);
    }
  }

  /**
    A script written as texts with a placeholder between each two renders as
    their clips with the reference piece between each two, when no text holds
    a placeholder of its own.
   */
  lemma RenderJoinedTexts(texts: seq<string>)
    requires |texts| > 0
    requires forall k :: 0 <= k < |texts| ==> !Contains(texts[k], PLACEHOLDER)
    ensures Rendered(Join(texts, PLACEHOLDER)) == Join(Clips(texts), [Ref])
  {
    PlaceholderNoBorder();
    SplitJoin(texts, PLACEHOLDER);
  }
}
