/**
 * The LawEnglish composition: a fixed table of five scenes laid out on the
 * frame timeline, the fade keyframes each scene gives `interpolate`, the
 * staggered entrance of the vocabulary items, and the colour theme chosen
 * from the lesson's category.
 */
module LawEnglish {
  import opened Text
  import opened LessonData

  /** Frame rate and length of the composition the video is registered with. */
  const Fps := 30
  const CompositionFrames := 930

  /** Frames over which each scene fades in and, before its end, out. */
  const FadeFrames := 20

  /** Frames between the entrances of two consecutive vocabulary items. */
  const VocabularyStagger := 5

  // ---------------------------------------------------------------------
  // Theme

  /** The five CSS custom properties every theme sets. */
  datatype Palette = Palette(
    primaryColor: string,
    accentColor: string,
    bgStart: string,
    bgEnd: string,
    textDark: string)

  const CivilPalette := Palette("#c0392b", "#d4af37", "#2c3e50", "#000000", "#2c3e50")
  const CompaniesPalette := Palette("#2980b9", "#f1c40f", "#34495e", "#1a252f", "#2c3e50")
  const CriminalPalette := Palette("#8e44ad", "#bdc3c7", "#2c3e50", "#000000", "#2c3e50")
  const DefaultPalette := Palette("#c0392b", "#d4af37", "#2c3e50", "#000000", "#2c3e50")

  predicate IsCivil(category: string) {
    Contains(category, "Civil Code") || Contains(category, "民法")
  }

  predicate IsCompanies(category: string) {
    Contains(category, "Companies Act") || Contains(category, "会社法")
  }

  predicate IsCriminal(category: string) {
    Contains(category, "Criminal") || Contains(category, "刑法")
  }

  /** The rules are tried in order and the first one that matches decides. */
  function ThemeStyle(category: string): Palette {
    if IsCivil(category) then CivilPalette
    else if IsCompanies(category) then CompaniesPalette
    else if IsCriminal(category) then CriminalPalette
    else DefaultPalette
  }

  /** Which palette a category gets, as a condition on the category alone:
      a later rule applies only when no earlier one matched, and a category
      that matches no rule falls back to a palette equal to the civil one. */
  lemma ThemeRules(category: string)
    ensures (ThemeStyle(category) == CivilPalette)
              <==> (IsCivil(category) || (!IsCompanies(category) && !IsCriminal(category)))
    ensures (ThemeStyle(category) == CompaniesPalette)
              <==> (!IsCivil(category) && IsCompanies(category))
    ensures (ThemeStyle(category) == CriminalPalette)
              <==> (!IsCivil(category) && !IsCompanies(category) && IsCriminal(category))
    ensures DefaultPalette == CivilPalette
  {
  }

  /** A category that names both the Civil Code and criminal law gets the
      civil palette, because the civil rule comes first. */
  lemma CivilWinsOverCriminal()
    ensures ThemeStyle("Civil Code / Criminal Law") == CivilPalette
    ensures ThemeStyle("Criminal Law (刑法)") == CriminalPalette
  {
    assert OccursAt("Civil Code / Criminal Law", "Civil Code", 0);
    var c := "Criminal Law (刑法)";
    assert OccursAt(c, "Criminal", 0);
    assert !IsCivil(c) by {
      forall i | 0 <= i <= |c| - |"Civil Code"| ensures !OccursAt(c, "Civil Code", i) {
        assert c[i..i + 10][0] == c[i] && c[i..i + 10][1] == c[i + 1];
      }
      forall i | 0 <= i <= |c| - |"民法"| ensures !OccursAt(c, "民法", i) {
        assert c[i..i + 2][0] == c[i];
      }
    }
    assert !IsCompanies(c) by {
      forall i | 0 <= i <= |c| - |"Companies Act"| ensures !OccursAt(c, "Companies Act", i) {
        assert c[i..i + 13][0] == c[i] && c[i..i + 13][1] == c[i + 1];
      }
      forall i | 0 <= i <= |c| - |"会社法"| ensures !OccursAt(c, "会社法", i) {
        assert c[i..i + 3][0] == c[i];
      }
    }
  }

  // ---------------------------------------------------------------------
  // Fades

  /** The input range every scene passes to `interpolate` for its opacity. */
  function FadeKeyframes(durationInFrames: int): seq<int> {
    [0, FadeFrames, durationInFrames - FadeFrames, durationInFrames]
  }

  predicate StrictlyIncreasing(s: seq<int>) {
    forall i, j :: 0 <= i < j < |s| ==> s[i] < s[j]
  }

  /** `interpolate` needs a strictly increasing input range; the fade range
      is one exactly when the scene is longer than two fades. */
  lemma FadeKeyframesIncreasing(durationInFrames: int)
    ensures StrictlyIncreasing(FadeKeyframes(durationInFrames)) <==> durationInFrames > 2 * FadeFrames
  {
    var k := FadeKeyframes(durationInFrames);
    if durationInFrames <= 2 * FadeFrames {
      assert !(k[1] < k[2]);
    }
  }

  // ---------------------------------------------------------------------
  // Vocabulary grid

  /** One rendered vocabulary item: its key, its texts and the frame, relative
      to the scene, at which its entrance spring starts. */
  datatype VocabularyCell = VocabularyCell(key: nat, word: string, translation: string, delay: nat)

  function EntranceDelay(index: nat): nat {
    index * VocabularyStagger
  }

  /** `vocabularyList.map((item, index) => ...)`. */
  function VocabularyGrid(list: seq<VocabularyItem>): seq<VocabularyCell> {
    seq(|list|, i requires 0 <= i < |list| =>
      VocabularyCell(i, list[i].word, list[i].translation, EntranceDelay(i)))
  }

  /** One cell per item, in input order; entrances start at frame 0 and come
      strictly later, five frames apart, down the list. */
  lemma VocabularyGridStaggers(list: seq<VocabularyItem>)
    ensures |VocabularyGrid(list)| == |list|
    ensures forall i :: 0 <= i < |list| ==>
              VocabularyGrid(list)[i].key == i
              && VocabularyGrid(list)[i].word == list[i].word
              && VocabularyGrid(list)[i].translation == list[i].translation
    ensures |list| > 0 ==> VocabularyGrid(list)[0].delay == 0
    ensures forall i :: 0 < i < |list| ==>
              VocabularyGrid(list)[i].delay == VocabularyGrid(list)[i - 1].delay + VocabularyStagger
    ensures forall i, j :: 0 <= i < j < |list| ==> VocabularyGrid(list)[i].delay < VocabularyGrid(list)[j].delay
  {
  }

  // ---------------------------------------------------------------------
  // Scene table

  /** What a `Sequence` renders; each scene receives its own duration. */
  datatype SceneView =
    | TitleScene(title: string, category: string, durationInFrames: nat)
    | WordScene(word: string, japaneseWordTranslation: string, definition: string,
                japaneseDefinition: string, durationInFrames: nat)
    | ContextScene(context: string, japaneseContext: string, durationInFrames: nat)
    | ExampleScene(sentence: string, translation: string, durationInFrames: nat)
    | VocabularyListScene(cells: seq<VocabularyCell>, durationInFrames: nat)

  /** A `<Sequence from durationInFrames>`: shows its scene on the frames
      `from <= f < from + durationInFrames`. */
  datatype SequenceSlot = SequenceSlot(from: nat, durationInFrames: nat, scene: SceneView)

  datatype Video = Video(theme: Palette, sequences: seq<SequenceSlot>)

  function End(s: SequenceSlot): nat {
    s.from + s.durationInFrames
  }

  predicate Shows(s: SequenceSlot, frame: int) {
    s.from <= frame < End(s)
  }

  /** The first sequence starts at frame 0 and each later one where the
      previous one ends. */
  predicate Contiguous(ss: seq<SequenceSlot>) {
    && (|ss| > 0 ==> ss[0].from == 0)
    && forall i :: 0 < i < |ss| ==> ss[i].from == End(ss[i - 1])
  }

  function EndFrame(ss: seq<SequenceSlot>): nat {
    if ss == [] then 0 else End(ss[|ss| - 1])
  }

  function TotalDuration(ss: seq<SequenceSlot>): nat {
    if ss == [] then 0 else TotalDuration(ss[..|ss| - 1]) + ss[|ss| - 1].durationInFrames
  }

  predicate ScenesMatchSequences(ss: seq<SequenceSlot>) {
    forall i :: 0 <= i < |ss| ==> ss[i].scene.durationInFrames == ss[i].durationInFrames
  }

  predicate FadesWellFormed(ss: seq<SequenceSlot>) {
    forall i :: 0 <= i < |ss| ==> StrictlyIncreasing(FadeKeyframes(ss[i].scene.durationInFrames))
  }

  /** The composition: the theme of the category and five sequences. */
  function LawEnglishVideo(props: LawData): (v: Video)
    ensures |v.sequences| == 5 && v.sequences[0].from == 0
    ensures Contiguous(v.sequences)
    ensures TotalDuration(v.sequences) == CompositionFrames
    ensures EndFrame(v.sequences) == CompositionFrames
    ensures ScenesMatchSequences(v.sequences)
    ensures FadesWellFormed(v.sequences)
    ensures v.theme == ThemeStyle(props.category)
    ensures v.sequences[0].scene == TitleScene(props.titleText, props.category, 90)
    ensures v.sequences[1].scene == WordScene(props.word, props.japaneseWordTranslation,
                                              props.definition, props.japaneseDefinition, 180)
    ensures v.sequences[2].scene == ContextScene(props.legalContext, props.japaneseLegalContext, 210)
    ensures v.sequences[3].scene == ExampleScene(props.exampleSentence, props.exampleTranslation, 210)
    ensures v.sequences[4].scene.VocabularyListScene?
    ensures v.sequences[4].scene.cells == VocabularyGrid(props.vocabularyList)
  {
    var ss := [
      SequenceSlot(0, 90, TitleScene(props.titleText, props.category, 90)),
      SequenceSlot(90, 180, WordScene(props.word, props.japaneseWordTranslation,
                                      props.definition, props.japaneseDefinition, 180)),
      SequenceSlot(270, 210, ContextScene(props.legalContext, props.japaneseLegalContext, 210)),
      SequenceSlot(480, 210, ExampleScene(props.exampleSentence, props.exampleTranslation, 210)),
      SequenceSlot(690, 240, VocabularyListScene(VocabularyGrid(props.vocabularyList), 240))
    ];
    FadeKeyframesIncreasing(90);
    FadeKeyframesIncreasing(180);
    FadeKeyframesIncreasing(210);
    FadeKeyframesIncreasing(240);
    ContiguousEndsAtTotal(ss);
    Video(ThemeStyle(props.category), ss)
  }

  /** For a contiguous table the last sequence ends at the sum of all
      durations. */
  lemma {:induction false} ContiguousEndsAtTotal(ss: seq<SequenceSlot>)
    requires Contiguous(ss)
    ensures EndFrame(ss) == TotalDuration(ss)
  {
    if |ss| > 1 {
      var p := ss[..|ss| - 1];
      assert Contiguous(p);
      ContiguousEndsAtTotal(p);
    }
  }

  /** A sequence of a contiguous table ends no later than any later one
      starts. */
  lemma {:induction false} ContiguousOrdered(ss: seq<SequenceSlot>, i: nat, j: nat)
    requires Contiguous(ss) && i < j < |ss|
    ensures End(ss[i]) <= ss[j].from
    decreases j
  {
    if i < j - 1 {
      ContiguousOrdered(ss, i, j - 1);
    }
  }

  /** No gap and no overlap: every frame before the end of a contiguous table
      is shown by exactly one sequence. */
  lemma {:induction false} EveryFrameInOneScene(ss: seq<SequenceSlot>, frame: int)
    requires Contiguous(ss) && 0 <= frame < EndFrame(ss)
    ensures exists i :: 0 <= i < |ss| && Shows(ss[i], frame)
    ensures forall i, j :: 0 <= i < |ss| && 0 <= j < |ss| && Shows(ss[i], frame) && Shows(ss[j], frame) ==> i == j
  {
    var n := |ss| - 1;
    if frame >= ss[n].from {
      assert Shows(ss[n], frame);
    } else {
      var p := ss[..n];
      assert Contiguous(p);
      assert EndFrame(p) == ss[n].from;
      EveryFrameInOneScene(p, frame);
      var i :| 0 <= i < |p| && Shows(p[i], frame);
      assert Shows(ss[i], frame);
    }
    forall i, j | 0 <= i < |ss| && 0 <= j < |ss| && Shows(ss[i], frame) && Shows(ss[j], frame)
      ensures i == j
    {
      if i < j {
        ContiguousOrdered(ss, i, j);
      } else if j < i {
        ContiguousOrdered(ss, j, i);
      }
    }
  }

  /** Each frame of the composition shows exactly one scene. */
  lemma CompositionFramesCovered(props: LawData, frame: int)
    requires 0 <= frame < CompositionFrames
    ensures exists i :: 0 <= i < 5 && Shows(LawEnglishVideo(props).sequences[i], frame)
    ensures forall i, j ::
              (0 <= i < 5 && 0 <= j < 5
               && Shows(LawEnglishVideo(props).sequences[i], frame)
               && Shows(LawEnglishVideo(props).sequences[j], frame)) ==> i == j
  {
    EveryFrameInOneScene(LawEnglishVideo(props).sequences, frame);
  }
}
