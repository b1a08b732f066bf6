/**
 * The lesson record shared by the scripts and the video, and an abstraction
 * of what `fs.readJson` yields for one file of the input directory.
 */
module LessonData {
  import opened Text

  datatype VocabularyItem = VocabularyItem(word: string, translation: string)

  /** One lesson: the props of the video and one element of an input file. */
  datatype LawData = LawData(
    category: string,
    titleText: string,
    word: string,
    definition: string,
    japaneseDefinition: string,
    japaneseWordTranslation: string,
    legalContext: string,
    japaneseLegalContext: string,
    exampleSentence: string,
    exampleTranslation: string,
    vocabularyList: seq<VocabularyItem>)

  /** One element of a JSON array read from an input file: `null`, a value
      that is not an object (a number, string, boolean or array, which has no
      `word` property), or a lesson object. */
  datatype Entry = Null | Scalar(truthy: bool) | Record(data: LawData)

  /** JavaScript truthiness of an array element. */
  predicate Truthy(e: Entry) {
    match e
    case Null => false
    case Scalar(t) => t
    case Record(_) => true
  }

  /** What reading one file as JSON gives: an exception (missing file or bad
      JSON), a JSON value that is not an array, or an array. */
  datatype FileContent = Unreadable | NonArray | Array(entries: seq<Entry>)

  /** One name of a directory listing together with what reading it gives. */
  datatype DirEntry = DirEntry(name: string, content: FileContent)

  /** The `.filter(f => f.endsWith('.json'))` test of both scripts. */
  predicate IsJsonName(name: string) {
    HasSuffix(name, ".json")
  }
}
