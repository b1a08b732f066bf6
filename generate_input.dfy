/**
 * The local rules of the lesson generator: the file name a category is
 * stored under, the removal of a Markdown code fence around the model's
 * answer, the collection of the words already present in the input files,
 * and the per-file append that skips words already stored.
 */
module GenerateInput {
  import opened Wrappers
  import opened Text
  import opened LessonData

  // ---------------------------------------------------------------------
  // Category file name

  /** `s.split('(')[0]`: the text before the first opening parenthesis. */
  function BeforeParen(s: string): (r: string)
    ensures HasPrefix(s, r) && '(' !in r
    ensures |r| < |s| ==> s[|r|] == '('
  {
    if s == [] || s[0] == '(' then [] else [s[0]] + BeforeParen(s[1..])
  }

  /** `s.replace(/\s+/g, '_')`, read left to right: `inRun` says whether the
      character before `s` was white space, so that every maximal run of
      white space gives exactly one underscore, at its first character. */
  function ReplaceRuns(s: string, inRun: bool): string {
    if s == [] then []
    else if IsSpace(s[0]) then (if inRun then [] else "_") + ReplaceRuns(s[1..], true)
    else [s[0]] + ReplaceRuns(s[1..], false)
  }

  function ReplaceSpaceRuns(s: string): string {
    ReplaceRuns(s, false)
  }

  /** Whether a scan that started in state `inRun` ends inside a run after
      reading `x`. */
  function EndsInRun(x: string, inRun: bool): bool {
    if x == [] then inRun else IsSpace(x[|x| - 1])
  }

  /** The scan of a concatenation is the scan of the first part followed by
      the scan of the second part, started in the state the first left. */
  lemma {:induction false} ReplaceRunsConcat(x: string, y: string, inRun: bool)
    ensures ReplaceRuns(x + y, inRun) == ReplaceRuns(x, inRun) + ReplaceRuns(y, EndsInRun(x, inRun))
  {
    if x == [] {
      assert x + y == y;
    } else {
      var next := IsSpace(x[0]);
      var head: string := if next then (if inRun then [] else "_") else [x[0]];
      assert (x + y)[0] == x[0] && (x + y)[1..] == x[1..] + y;
      ReplaceRunsConcat(x[1..], y, next);
      assert EndsInRun(x[1..], next) == EndsInRun(x, inRun);
      assert head + (ReplaceRuns(x[1..], next) + ReplaceRuns(y, EndsInRun(x, inRun)))
          == (head + ReplaceRuns(x[1..], next)) + ReplaceRuns(y, EndsInRun(x, inRun));
    }
  }

  /** No white space is left after the replacement. */
  lemma {:induction false} ReplacedHasNoSpace(s: string, inRun: bool)
    ensures NoSpace(ReplaceRuns(s, inRun))
  {
    if s != [] {
      ReplacedHasNoSpace(s[1..], IsSpace(s[0]));
    }
  }

  /** Text without white space is left as it is. */
  lemma {:induction false} NoSpaceUnchanged(s: string)
    requires NoSpace(s)
    ensures ReplaceSpaceRuns(s) == s
  {
    if s != [] {
      assert !IsSpace(s[0]);
      NoSpaceUnchanged(s[1..]);
    }
  }

  /** The characters `[a-z0-9_]`. */
  predicate IsSnakeChar(c: char) {
    'a' <= c <= 'z' || '0' <= c <= '9' || c == '_'
  }

  predicate AllSnake(s: string) {
    forall i :: 0 <= i < |s| ==> IsSnakeChar(s[i])
  }

  /** `s.replace(/[^a-z0-9_]/g, '')`. */
  function KeepSnakeChars(s: string): (r: string)
    ensures AllSnake(r)
    ensures AllSnake(s) ==> r == s
    ensures |r| <= |s|
    ensures |s| == 1 ==> (r == s <==> IsSnakeChar(s[0])) && (r == [] <==> !IsSnakeChar(s[0]))
  {
    if s == [] then []
    else (if IsSnakeChar(s[0]) then [s[0]] else []) + KeepSnakeChars(s[1..])
  }

  /** The filter works character by character: filtering a concatenation
      filters each part, so the kept characters stay in their order. */
  lemma {:induction false} KeepSnakeCharsConcat(x: string, y: string)
    ensures KeepSnakeChars(x + y) == KeepSnakeChars(x) + KeepSnakeChars(y)
  {
    if x == [] {
      assert x + y == y;
    } else {
      assert (x + y)[0] == x[0] && (x + y)[1..] == x[1..] + y;
      KeepSnakeCharsConcat(x[1..], y);
      var head: string := if IsSnakeChar(x[0]) then [x[0]] else [];
      assert head + (KeepSnakeChars(x[1..]) + KeepSnakeChars(y))
          == (head + KeepSnakeChars(x[1..])) + KeepSnakeChars(y);
    }
  }

  /** Trim, lower-case, white-space runs to `_`, drop everything outside
      `[a-z0-9_]`. */
  function Normalize(s: string): string {
    KeepSnakeChars(ReplaceSpaceRuns(ToLower(Trim(s))))
  }

  function CategoryStem(category: string): string {
    Normalize(BeforeParen(category))
  }

  /** `getCategoryFilename`. */
  function CategoryFilename(category: string): (r: string)
    ensures HasSuffix(r, ".json")
    ensures AllSnake(r[..|r| - 5])
  {
    CategoryStem(category) + ".json"
  }

  /** Normalising a normalised stem changes nothing. */
  lemma NormalizeIdempotent(s: string)
    ensures Normalize(Normalize(s)) == Normalize(s)
  {
    var n := Normalize(s);
    SnakeIsPlain(n);
    assert TrimStart(n) == n;
    assert TrimEnd(n) == n;
    LowerIsIdentityWithoutUpper(n);
    NoSpaceUnchanged(n);
  }

  /** A string of `[a-z0-9_]` has no white space, no upper case and no
      parenthesis. */
  lemma SnakeIsPlain(s: string)
    requires AllSnake(s)
    ensures NoSpace(s) && '(' !in s
    ensures forall i :: 0 <= i < |s| ==> !IsUpper(s[i])
  {
    forall i | 0 <= i < |s| ensures !IsSpace(s[i]) && s[i] != '(' && !IsUpper(s[i]) {
      assert IsSnakeChar(s[i]);
    }
  }

  /** A stem, read as a category, names the same file as the category it
      came from. */
  lemma StemNamesItsOwnFile(category: string)
    ensures CategoryStem(CategoryStem(category)) == CategoryStem(category)
    ensures CategoryFilename(CategoryStem(category)) == CategoryFilename(category)
  {
    var p := BeforeParen(category);
    var n := Normalize(p);
    calc {
      CategoryStem(n);
      Normalize(BeforeParen(n));
      { SnakeIsPlain(n); BeforeParenOfPlain(n); }
      Normalize(n);
      { NormalizeIdempotent(p); }
      n;
    }
  }

  lemma BeforeParenOfPlain(s: string)
    requires '(' !in s
    ensures BeforeParen(s) == s
  {
  }

  lemma {:induction false} BeforeParenSkips(a: string, s: string)
    requires '(' !in a
    ensures BeforeParen(a + s) == a + BeforeParen(s)
  {
    if a == [] {
      assert a + s == s;
    } else {
      assert (a + s)[1..] == a[1..] + s;
      BeforeParenSkips(a[1..], s);
    }
  }

  lemma SpaceIsNotParen(w: string)
    requires AllSpace(w)
    ensures '(' !in w
  {
    forall i | 0 <= i < |w| ensures w[i] != '(' {
      assert IsSpace(w[i]);
    }
  }

  /** Only the text before the first `(` decides the file name. */
  lemma OnlyTextBeforeParenMatters(a: string, b: string)
    requires '(' !in a
    ensures CategoryFilename(a + "(" + b) == CategoryFilename(a)
  {
    BeforeParenSkips(a, "(" + b);
    assert a + "(" + b == a + ("(" + b);
    assert BeforeParen(a) == a;
  }

  /** White space in front of a category never reaches the file name. */
  lemma LeadingSpaceIgnored(w: string, s: string)
    requires AllSpace(w)
    ensures CategoryFilename(w + s) == CategoryFilename(s)
  {
    SpaceIsNotParen(w);
    BeforeParenSkips(w, s);
    TrimStartSkipsSpace(w, BeforeParen(s));
  }

  /** White space at the end of the text before `(` never reaches the file
      name. */
  lemma TrailingSpaceIgnored(s: string, w: string)
    requires '(' !in s && AllSpace(w)
    ensures CategoryFilename(s + w) == CategoryFilename(s)
  {
    SpaceIsNotParen(w);
    assert '(' !in s + w;
    assert BeforeParen(s + w) == s + w;
    assert BeforeParen(s) == s;
    if AllSpace(s) {
      TrimStartSkipsSpace(s, w);
      TrimStartSkipsSpace(s, []);
      assert s + [] == s;
      assert TrimStart(w) == [];
    } else {
      TrimStartKeepsTail(s, w);
      TrimEndSkipsSpace(TrimStart(s), w);
    }
  }

  /** Each maximal run of white space between two other characters becomes
      exactly one underscore. */
  lemma SpaceRunBecomesOneUnderscore(a: string, w: string, b: string)
    requires |w| > 0 && AllSpace(w)
    requires a == [] || !IsSpace(a[|a| - 1])
    requires b == [] || !IsSpace(b[0])
    ensures ReplaceSpaceRuns(a + w + b) == ReplaceSpaceRuns(a) + "_" + ReplaceSpaceRuns(b)
  {
    assert a + w + b == a + (w + b);
    ReplaceRunsConcat(a, w + b, false);
    ReplaceRunsConcat(w, b, false);
    RunGivesOneUnderscore(w);
    assert b == [] || ReplaceRuns(b, true) == ReplaceRuns(b, false);
  }

  /** A non-empty run of white space alone gives one underscore, or nothing
      when the scan is already inside a run. */
  lemma {:induction false} RunGivesOneUnderscore(w: string)
    requires |w| > 0 && AllSpace(w)
    ensures ReplaceRuns(w, false) == "_" && ReplaceRuns(w, true) == []
  {
    assert IsSpace(w[0]);
    if |w| > 1 {
      RunGivesOneUnderscore(w[1..]);
    }
  }

  /** A category of two words, a space and a parenthesised remark is filed
      under the two words in lower case joined by an underscore: the
      generator's own examples "Civil Code (民法)" and "Civil Procedure
      (民事訴訟法)" give "civil_code.json" and "civil_procedure.json". */
  lemma TwoWordCategory(a: string, b: string, tail: string)
    requires AllLetters(a) && AllLetters(b)
    ensures CategoryFilename(a + " " + b + " " + "(" + tail)
            == ToLower(a) + "_" + ToLower(b) + ".json"
  {
    var s := a + " " + b;
    WordsHaveNoParen(a, b);
    calc {
      CategoryFilename(a + " " + b + " " + "(" + tail);
      { assert a + " " + b + " " + "(" + tail == (s + " ") + "(" + tail; }
      CategoryFilename((s + " ") + "(" + tail);
      { OnlyTextBeforeParenMatters(s + " ", tail); }
      CategoryFilename(s + " ");
      { TrailingSpaceIgnored(s, " "); }
      CategoryFilename(s);
      { assert BeforeParen(s) == s; }
      Normalize(s) + ".json";
      { TwoWordStem(a, b); }
      ToLower(a) + "_" + ToLower(b) + ".json";
    }
  }

  /** The generator's own examples: "Civil Code (民法)" is filed under
      "civil_code.json" and "Civil Procedure (民事訴訟法)" under
      "civil_procedure.json", whatever the parenthesised remark says. */
  lemma CivilCodeFile(a: string, b: string, remark: string)
    requires a == "Civil" && b == "Code"
    ensures CategoryFilename(a + " " + b + " " + "(" + remark) == "civil_code.json"
  {
    TwoWordCategory(a, b, remark);
    CivilCodeSpelled(a, b);
  }

  lemma CivilProcedureFile(a: string, b: string, remark: string)
    requires a == "Civil" && b == "Procedure"
    ensures CategoryFilename(a + " " + b + " " + "(" + remark) == "civil_procedure.json"
  {
    TwoWordCategory(a, b, remark);
    CivilProcedureSpelled(a, b);
  }

  lemma CivilCodeSpelled(a: string, b: string)
    requires a == "Civil" && b == "Code"
    ensures AllLetters(a) && AllLetters(b)
    ensures ToLower(a) + "_" + ToLower(b) + ".json" == "civil_code.json"
  {
    CapitalisedLower(a);
    CapitalisedLower(b);
  }

  lemma CivilProcedureSpelled(a: string, b: string)
    requires a == "Civil" && b == "Procedure"
    ensures AllLetters(a) && AllLetters(b)
    ensures ToLower(a) + "_" + ToLower(b) + ".json" == "civil_procedure.json"
  {
    CapitalisedLower(a);
    ProcedureLower(b);
  }

  lemma ProcedureLower(b: string)
    requires b == "Procedure"
    ensures AllLetters(b) && ToLower(b) == "procedure"
  {
    CapitalisedLower(b);
  }

  /** A capitalised word of ASCII letters loses only its capital. */
  lemma CapitalisedLower(a: string)
    requires a != [] && IsUpper(a[0])
    requires forall i :: 1 <= i < |a| ==> 'a' <= a[i] <= 'z'
    ensures ToLower(a) == [(a[0] as int + 32) as char] + a[1..]
  {
  }

  lemma WordsHaveNoParen(a: string, b: string)
    requires AllLetters(a) && AllLetters(b)
    ensures '(' !in a + " " + b
  {
    var s := a + " " + b;
    forall i | 0 <= i < |s| ensures s[i] != '(' {
      if i < |a| { assert s[i] == a[i]; }
      else if i > |a| { assert s[i] == b[i - |a| - 1]; }
    }
  }

  lemma TwoWordStem(a: string, b: string)
    requires AllLetters(a) && AllLetters(b)
    ensures Normalize(a + " " + b) == ToLower(a) + "_" + ToLower(b)
  {
    var s := a + " " + b;
    var la, lb := ToLower(a), ToLower(b);
    LowerLettersAreSnake(a);
    LowerLettersAreSnake(b);
    calc {
      Normalize(s);
      KeepSnakeChars(ReplaceSpaceRuns(ToLower(Trim(s))));
      { TrimKeepsWords(a, b); }
      KeepSnakeChars(ReplaceSpaceRuns(ToLower(s)));
      { LowerKeepsSpace(a, b); }
      KeepSnakeChars(ReplaceSpaceRuns(la + " " + lb));
      { SnakeWordsJoined(la, lb); }
      KeepSnakeChars(la + "_" + lb);
      { SnakeJoin(la, lb); }
      la + "_" + lb;
    }
  }

  lemma TrimKeepsWords(a: string, b: string)
    requires AllLetters(a) && AllLetters(b)
    ensures Trim(a + " " + b) == a + " " + b
  {
    var s := a + " " + b;
    assert s[0] == a[0] && s[|s| - 1] == b[|b| - 1];
    assert TrimStart(s) == s;
  }

  lemma LowerKeepsSpace(a: string, b: string)
    ensures ToLower(a + " " + b) == ToLower(a) + " " + ToLower(b)
  {
  }

  lemma SnakeWordsJoined(la: string, lb: string)
    requires AllSnake(la) && AllSnake(lb) && la != [] && lb != []
    ensures ReplaceSpaceRuns(la + " " + lb) == la + "_" + lb
  {
    SnakeIsPlain(la);
    SnakeIsPlain(lb);
    NoSpaceUnchanged(la);
    NoSpaceUnchanged(lb);
    SpaceRunBecomesOneUnderscore(la, " ", lb);
  }

  lemma SnakeJoin(la: string, lb: string)
    requires AllSnake(la) && AllSnake(lb)
    ensures KeepSnakeChars(la + "_" + lb) == la + "_" + lb
  {
    assert AllSnake(la + "_" + lb);
  }

  lemma LowerLettersAreSnake(a: string)
    requires AllLetters(a)
    ensures AllSnake(ToLower(a)) && ToLower(a) != []
  {
    forall i | 0 <= i < |a| ensures IsSnakeChar(ToLower(a)[i]) {
      assert ToLower(a)[i] == LowerChar(a[i]);
    }
  }

  predicate AllLetters(s: string) {
    |s| > 0 && forall i :: 0 <= i < |s| ==> ('a' <= s[i] <= 'z' || 'A' <= s[i] <= 'Z')
  }

  // ---------------------------------------------------------------------
  // Code fence around the model's answer

  const JsonFence := "```json"
  const Fence := "```"

  /** The first `replace` of the clean-up: an opening "```json" at the very
      start, together with all white space after it. */
  function StripLeadingFence(text: string): (r: string)
    ensures HasSuffix(text, r)
    ensures r != text <==> HasPrefix(text, JsonFence)
    ensures HasPrefix(text, JsonFence) ==>
              && |r| <= |text| - |JsonFence|
              && (forall i :: |JsonFence| <= i < |text| - |r| ==> IsSpace(text[i]))
              && (r == [] || !IsSpace(r[0]))
  {
    if HasPrefix(text, JsonFence) then
      var rest := text[|JsonFence|..];
      var r := TrimStart(rest);
      assert forall i :: |JsonFence| <= i < |text| ==> text[i] == rest[i - |JsonFence|];
      r
    else
      text
  }

  /** The second `replace` of the clean-up: a closing "```" at the very end,
      together with the whole run of white space in front of it (the leftmost
      match of the pattern). */
  function StripTrailingFence(text: string): (r: string)
    ensures HasPrefix(text, r)
    ensures r != text <==> HasSuffix(text, Fence)
    ensures HasSuffix(text, Fence) ==>
              && |r| <= |text| - |Fence|
              && (forall i :: |r| <= i < |text| - |Fence| ==> IsSpace(text[i]))
              && (r == [] || !IsSpace(r[|r| - 1]))
  {
    if HasSuffix(text, Fence) then
      var rest := text[..|text| - |Fence|];
      var r := TrimEnd(rest);
      r
    else
      text
  }

  function StripFences(text: string): string {
    StripTrailingFence(StripLeadingFence(text))
  }

  /** Text without either fence is passed on unchanged. */
  lemma UnfencedTextUnchanged(text: string)
    requires !HasPrefix(text, JsonFence) && !HasSuffix(text, Fence)
    ensures StripFences(text) == text
  {
  }

  /** Stripping undoes wrapping a body, which neither starts nor ends with
      white space, in a `json` code fence. */
  lemma StripFencesUndoesFence(body: string)
    requires body == [] || (!IsSpace(body[0]) && !IsSpace(body[|body| - 1]))
    ensures StripFences(JsonFence + "\n" + body + "\n" + Fence) == body
  {
    if body == [] {
      EmptyFenceRemoved(body);
    } else {
      OpeningFenceRemoved(body);
      ClosingFenceRemoved(body);
    }
  }

  /** An empty fenced answer: the opening fence takes both line breaks with
      it, and the closing fence is all that is left to remove. */
  lemma EmptyFenceRemoved(body: string)
    requires body == []
    ensures StripFences(JsonFence + "\n" + body + "\n" + Fence) == body
  {
    EmptyOpeningRemoved(body);
    TrailingFenceDropped(body);
    assert body + Fence == Fence;
  }

  lemma EmptyOpeningRemoved(body: string)
    requires body == []
    ensures StripLeadingFence(JsonFence + "\n" + body + "\n" + Fence) == Fence
  {
    var w := "\n" + body + "\n";
    assert AllSpace(w) by {
      assert w == "\n\n";
    }
    assert JsonFence + "\n" + body + "\n" + Fence == JsonFence + (w + Fence);
    LeadingFenceDropped(w + Fence);
    TrimStartSkipsSpace(w, Fence);
  }

  lemma OpeningFenceRemoved(body: string)
    requires body != [] && !IsSpace(body[0])
    ensures StripLeadingFence(JsonFence + "\n" + body + "\n" + Fence) == body + "\n" + Fence
  {
    var inner := body + "\n" + Fence;
    var x := "\n" + inner;
    calc {
      StripLeadingFence(JsonFence + "\n" + body + "\n" + Fence);
      { assert JsonFence + "\n" + body + "\n" + Fence == JsonFence + x; }
      StripLeadingFence(JsonFence + x);
      { LeadingFenceDropped(x); }
      TrimStart(x);
      { TrimStartSkipsSpace("\n", inner); }
      TrimStart(inner);
      { assert inner[0] == body[0]; }
      inner;
    }
  }

  lemma ClosingFenceRemoved(body: string)
    requires body == [] || !IsSpace(body[|body| - 1])
    ensures StripTrailingFence(body + "\n" + Fence) == body
  {
    TrailingFenceDropped(body + "\n");
    TrimEndSkipsSpace(body, "\n");
  }

  lemma LeadingFenceDropped(x: string)
    ensures StripLeadingFence(JsonFence + x) == TrimStart(x)
  {
    assert (JsonFence + x)[..|JsonFence|] == JsonFence;
    assert (JsonFence + x)[|JsonFence|..] == x;
  }

  lemma TrailingFenceDropped(x: string)
    ensures StripTrailingFence(x + Fence) == TrimEnd(x)
  {
    assert (x + Fence)[|x|..] == Fence;
    assert (x + Fence)[..|x|] == x;
  }

  // ---------------------------------------------------------------------
  // Words already present

  /** The words one array contributes: the lower-cased non-empty `word` of
      each object, up to the first `null`, whose `word` cannot be read and
      makes the reading of that file stop. */
  function WordsOfEntries(es: seq<Entry>): set<string> {
    if es == [] then {}
    else match es[0]
      case Null => {}
      case Scalar(_) => WordsOfEntries(es[1..])
      case Record(d) => (if d.word != "" then {ToLower(d.word)} else {}) + WordsOfEntries(es[1..])
  }

  function WordsOfFile(f: DirEntry): set<string> {
    if IsJsonName(f.name) && f.content.Array? then WordsOfEntries(f.content.entries) else {}
  }

  function WordsOfFiles(files: seq<DirEntry>): set<string> {
    if files == [] then {} else WordsOfFile(files[0]) + WordsOfFiles(files[1..])
  }

  /** The `j`-th element of an array is read and holds the non-empty word
      `w` in lower case. */
  predicate ContributesAt(es: seq<Entry>, j: int, w: string) {
    && 0 <= j < |es|
    && (forall k :: 0 <= k < j ==> !es[k].Null?)
    && es[j].Record? && es[j].data.word != "" && ToLower(es[j].data.word) == w
  }

  predicate FileContributes(f: DirEntry, j: int, w: string) {
    IsJsonName(f.name) && f.content.Array? && ContributesAt(f.content.entries, j, w)
  }

  /** `getExistingWords`: a missing directory gives no words. */
  method ExistingWords(dir: Option<seq<DirEntry>>) returns (words: set<string>)
    ensures dir.None? ==> words == {}
    ensures dir.Some? ==> words == WordsOfFiles(dir.value)
  {
    words := {};
    if dir.None? {
      return;
    }
    var files := dir.value;
    for i := 0 to |files|
      invariant words + WordsOfFiles(files[i..]) == WordsOfFiles(files)
    {
      assert files[i..][1..] == files[i + 1..];
      var file := files[i];
      if IsJsonName(file.name) && file.content.Array? {
        var es := file.content.entries;
        var j := 0;
        while j < |es|
          invariant 0 <= j <= |es|
          invariant words + WordsOfEntries(es[j..]) + WordsOfFiles(files[i + 1..]) == WordsOfFiles(files)
        {
          assert es[j..][1..] == es[j + 1..];
          match es[j] {
            case Null =>
              break;
            case Scalar(_) =>
            case Record(d) =>
              if d.word != "" {
                words := words + {ToLower(d.word)};
              }
          }
          j := j + 1;
        }
      }
    }
  }

  /** The words of one array are exactly those of the objects read before
      the first `null`. */
  lemma {:induction false} WordsOfEntriesExactly(es: seq<Entry>, w: string)
    ensures w in WordsOfEntries(es) <==> exists j :: ContributesAt(es, j, w)
  {
    if es != [] && !es[0].Null? {
      WordsOfEntriesExactly(es[1..], w);
      if w in WordsOfEntries(es) {
        if es[0].Record? && es[0].data.word != "" && ToLower(es[0].data.word) == w {
          assert ContributesAt(es, 0, w);
        } else {
          var j :| ContributesAt(es[1..], j, w);
          assert ContributesAt(es, j + 1, w);
        }
      }
      if j :| ContributesAt(es, j, w) {
        if j > 0 {
          assert ContributesAt(es[1..], j - 1, w);
        }
      }
    } else if es != [] {
      forall j ensures !ContributesAt(es, j, w) {
        if 0 < j < |es| {
          assert es[0].Null?;
        }
      }
    }
  }

  /** The collected set holds exactly the lower-cased non-empty words of the
      objects read from `.json` files whose content is an array; other files
      contribute nothing. */
  lemma {:induction false} CollectedWordsExactly(files: seq<DirEntry>, w: string)
    ensures w in WordsOfFiles(files)
            <==> exists i, j :: 0 <= i < |files| && FileContributes(files[i], j, w)
  {
    if files != [] {
      CollectedWordsExactly(files[1..], w);
      var f := files[0];
      if IsJsonName(f.name) && f.content.Array? {
        WordsOfEntriesExactly(f.content.entries, w);
      }
      if w in WordsOfFiles(files) {
        if w in WordsOfFile(f) {
          var j :| ContributesAt(f.content.entries, j, w);
          assert FileContributes(files[0], j, w);
        } else {
          var i, j :| 0 <= i < |files[1..]| && FileContributes(files[1..][i], j, w);
          assert FileContributes(files[i + 1], j, w);
        }
      }
      if i, j :| 0 <= i < |files| && FileContributes(files[i], j, w) {
        if i > 0 {
          assert FileContributes(files[1..][i - 1], j, w);
        } else {
          assert w in WordsOfFile(f);
        }
      }
    }
  }

  // ---------------------------------------------------------------------
  // Appending the generated lessons to their category files
  // ---------------------------------------------------------------------

  /** The one error the append loop can meet: an element of a category
      file, or the file itself, that has no `word` to compare with. */
  datatype StoreError = TypeError

  /** What the loop leaves on disk, and whether it reached the end of the
      generated lessons (an error ends the script). */
  datatype StoreRun = StoreRun(files: map<string, FileContent>, completed: bool)

  predicate SameWord(a: string, b: string) {
    ToLower(a) == ToLower(b)
  }

  /** Every element before index `k` is an object whose word differs from
      `word`, ignoring case. */
  predicate CheckedBefore(es: seq<Entry>, k: int, word: string) {
    forall m :: 0 <= m < k && m < |es| ==> es[m].Record? && !SameWord(es[m].data.word, word)
  }

  /** The duplicate check on an existing array: it stops at the first object
      with the same word, and an element that is not an object throws. */
  function FindDuplicate(es: seq<Entry>, word: string): Result<bool, StoreError> {
    if es == [] then Success(false)
    else if !es[0].Record? then Failure(TypeError)
    else if SameWord(es[0].data.word, word) then Success(true)
    else FindDuplicate(es[1..], word)
  }

  /** The entries a lesson is appended to: those of an array file; a missing
      file or one that cannot be read starts from an empty array. */
  function PriorEntries(files: map<string, FileContent>, name: string): seq<Entry> {
    if name in files && files[name].Array? then files[name].entries else []
  }

  /** One turn of the append loop for a generated lesson: it goes to the file
      named after its category. */
  function StoreItem(files: map<string, FileContent>, item: LawData): Result<map<string, FileContent>, StoreError> {
    StoreAt(files, CategoryFilename(item.category), item)
  }

  /** The turn on the file `name`: JSON that is not an array has no `some`
      and throws; otherwise the lesson is appended unless its word is there. */
  function StoreAt(files: map<string, FileContent>, name: string, item: LawData): Result<map<string, FileContent>, StoreError> {
    if name in files && files[name].NonArray? then Failure(TypeError)
    else
      var prior := PriorEntries(files, name);
      match FindDuplicate(prior, item.word)
      case Failure(e) => Failure(e)
      case Success(true) => Success(files)
      case Success(false) => Success(files[name := Array(prior + [Record(item)])])
  }

  /** The append loop over all generated lessons, in order; the first error
      ends the run with the files written so far. */
  function StoreAll(files: map<string, FileContent>, data: seq<LawData>): StoreRun
    decreases |data|
  {
    if data == [] then StoreRun(files, true)
    else match StoreItem(files, data[0])
      case Failure(_) => StoreRun(files, false)
      case Success(next) => StoreAll(next, data[1..])
  }

  /** The loop as `main` runs it on the input directory, absent when it does
      not exist. Every generated lesson then meets an empty file, so it is
      pushed and written, and `writeJson`, which creates no directory,
      throws: the script ends at the first lesson with nothing stored. */
  function StoreAllIn(dir: Option<map<string, FileContent>>, data: seq<LawData>): StoreRun {
    match dir
    case None => StoreRun(map[], data == [])
    case Some(files) => StoreAll(files, data)
  }

  method StoreGenerated(dir: Option<map<string, FileContent>>, data: seq<LawData>) returns (run: StoreRun)
    ensures run == StoreAllIn(dir, data)
  {
    if dir.None? {
      return StoreRun(map[], |data| == 0);
    }
    var files := dir.value;
    var current := files;
    var i := 0;
    while i < |data|
      invariant 0 <= i <= |data|
      invariant StoreAll(current, data[i..]) == StoreAll(files, data)
    {
      assert data[i..][1..] == data[i + 1..];
      var stored := StoreItem(current, data[i]);
      if stored.Failure? {
        return StoreRun(current, false);
      }
      current := stored.value;
      i := i + 1;
    }
    run := StoreRun(current, true);
  }

  /** The run completes exactly when there is nothing to store or the
      directory exists and every turn succeeds; without the directory no file
      is written. */
  lemma StoreAllInCompletes(dir: Option<map<string, FileContent>>, data: seq<LawData>)
    ensures StoreAllIn(dir, data).completed
            <==> data == [] || (dir.Some? && StoreAll(dir.value, data).completed)
    ensures dir.None? ==> StoreAllIn(dir, data).files == map[]
  {
    if dir.Some? && data == [] {
      assert StoreAll(dir.value, data).completed;
    }
  }

  /** The duplicate check answers "found" exactly when an object with the
      same word comes before any element that is not an object, fails
      exactly when such an element comes first, and answers "not found"
      exactly when every element is an object with a different word. */
  lemma {:induction false} FindDuplicateMeaning(es: seq<Entry>, word: string)
    ensures FindDuplicate(es, word) == Success(true)
            <==> exists k :: 0 <= k < |es| && CheckedBefore(es, k, word)
                            && es[k].Record? && SameWord(es[k].data.word, word)
    ensures FindDuplicate(es, word).Failure?
            <==> exists k :: 0 <= k < |es| && CheckedBefore(es, k, word) && !es[k].Record?
    ensures FindDuplicate(es, word) == Success(false) <==> CheckedBefore(es, |es|, word)
  {
    if es != [] {
      FindDuplicateMeaning(es[1..], word);
      CheckedBeforeStep(es, word);
      if es[0].Record? && !SameWord(es[0].data.word, word) {
        if k :| 0 <= k < |es[1..]| && CheckedBefore(es[1..], k, word) && es[1..][k].Record? && SameWord(es[1..][k].data.word, word) {
          assert CheckedBefore(es, k + 1, word);
        }
        if k :| 0 <= k < |es| && CheckedBefore(es, k, word) && es[k].Record? && SameWord(es[k].data.word, word) {
          assert k > 0 && CheckedBefore(es[1..], k - 1, word);
        }
        if k :| 0 <= k < |es[1..]| && CheckedBefore(es[1..], k, word) && !es[1..][k].Record? {
          assert CheckedBefore(es, k + 1, word);
        }
        if k :| 0 <= k < |es| && CheckedBefore(es, k, word) && !es[k].Record? {
          assert k > 0 && CheckedBefore(es[1..], k - 1, word);
        }
      } else {
        assert CheckedBefore(es, 0, word);
      }
    }
  }

  /** Checking the elements before `k + 1` is checking the head and then the
      elements of the tail before `k`. */
  lemma CheckedBeforeStep(es: seq<Entry>, word: string)
    requires es != []
    ensures forall k {:trigger CheckedBefore(es[1..], k, word)} :: 0 <= k ==>
              (CheckedBefore(es, k + 1, word)
               <==> es[0].Record? && !SameWord(es[0].data.word, word) && CheckedBefore(es[1..], k, word))
  {
    forall k | 0 <= k
      ensures CheckedBefore(es, k + 1, word)
              <==> es[0].Record? && !SameWord(es[0].data.word, word) && CheckedBefore(es[1..], k, word)
    {
      if es[0].Record? && !SameWord(es[0].data.word, word) && CheckedBefore(es[1..], k, word) {
        forall m | 0 <= m < k + 1 && m < |es|
          ensures es[m].Record? && !SameWord(es[m].data.word, word)
        {
          if m > 0 {
            assert es[m] == es[1..][m - 1];
          }
        }
      }
      if CheckedBefore(es, k + 1, word) {
        forall m | 0 <= m < k && m < |es[1..]|
          ensures es[1..][m].Record? && !SameWord(es[1..][m].data.word, word)
        {
          assert es[1..][m] == es[m + 1];
        }
      }
    }
  }

  /** Some object of the array has `word` as its word, ignoring case. */
  predicate HasWord(es: seq<Entry>, word: string) {
    exists k :: 0 <= k < |es| && es[k].Record? && SameWord(es[k].data.word, word)
  }

  /** The lesson's word is in the array of its category file. */
  predicate Recorded(files: map<string, FileContent>, item: LawData) {
    RecordedAt(files, CategoryFilename(item.category), item.word)
  }

  predicate RecordedAt(files: map<string, FileContent>, name: string, word: string) {
    name in files && files[name].Array? && HasWord(files[name].entries, word)
  }

  /** Every array file of `before` is still an array in `after` and starts
      with its old elements. */
  predicate Extends(before: map<string, FileContent>, after: map<string, FileContent>) {
    forall n :: n in before && before[n].Array? ==>
      n in after && after[n].Array? && before[n].entries <= after[n].entries
  }

  /** An array whose elements are all objects, no two with the same word
      ignoring case. */
  predicate DistinctWords(es: seq<Entry>) {
    forall k :: 0 <= k < |es| ==> es[k].Record? && CheckedBefore(es, k, es[k].data.word)
  }

  /** Every file of the directory is an array of objects with distinct words. */
  predicate WellFormedDir(files: map<string, FileContent>) {
    forall n :: n in files ==> files[n].Array? && DistinctWords(files[n].entries)
  }

  /** One turn of the loop: it fails exactly when the category file holds
      JSON that is not an array, or when an element without a word is met
      before a match. On success only the category file may change: it
      becomes an array holding the lesson's word, which is the old array when
      the word was already there and the old array plus the lesson
      otherwise. */
  lemma StoreAtEffect(files: map<string, FileContent>, name: string, item: LawData)
    ensures var prior := PriorEntries(files, name);
            && (StoreAt(files, name, item).Failure?
                <==> (|| (name in files && files[name].NonArray?)
                      || exists k :: 0 <= k < |prior| && CheckedBefore(prior, k, item.word) && !prior[k].Record?))
            && (StoreAt(files, name, item).Success? ==>
                  var next := StoreAt(files, name, item).value;
                  && (forall n :: n != name ==> (n in next <==> n in files))
                  && (forall n :: n != name && n in files ==> next[n] == files[n])
                  && RecordedAt(next, name, item.word)
                  && (if HasWord(prior, item.word)
                      then next[name].entries == prior
                      else next[name].entries == prior + [Record(item)]))
  {
    var prior := PriorEntries(files, name);
    FindDuplicateMeaning(prior, item.word);
    var appended := prior + [Record(item)];
    assert appended[|prior|] == Record(item);
    if FindDuplicate(prior, item.word) == Success(false) {
      assert !HasWord(prior, item.word);
      assert HasWord(appended, item.word);
    }
  }

  /** Storing the same lesson again changes nothing. */
  lemma StoreAtIdempotent(files: map<string, FileContent>, name: string, item: LawData)
    requires StoreAt(files, name, item).Success?
    ensures StoreAt(StoreAt(files, name, item).value, name, item) == StoreAt(files, name, item)
  {
    var prior := PriorEntries(files, name);
    if FindDuplicate(prior, item.word) == Success(false) {
      var next := StoreAt(files, name, item).value;
      var es := prior + [Record(item)];
      assert next == files[name := Array(es)];
      AppendedWordIsFound(prior, item);
      assert PriorEntries(next, name) == es;
      assert next[name := Array(es)] == next;
    }
  }

  /** Once the check finds no match, the check on the array with the lesson
      appended finds the lesson. */
  lemma {:induction false} AppendedWordIsFound(es: seq<Entry>, item: LawData)
    requires FindDuplicate(es, item.word) == Success(false)
    ensures FindDuplicate(es + [Record(item)], item.word) == Success(true)
  {
    if es != [] {
      assert (es + [Record(item)])[1..] == es[1..] + [Record(item)];
      AppendedWordIsFound(es[1..], item);
    }
  }

  /** A successful turn keeps every array file's old elements in front. */
  lemma StoreAtExtends(files: map<string, FileContent>, name: string, item: LawData)
    requires StoreAt(files, name, item).Success?
    ensures Extends(files, StoreAt(files, name, item).value)
  {
    StoreAtEffect(files, name, item);
  }

  /** The whole loop keeps every array file's old elements in front. */
  lemma {:induction false} StoreAllExtends(files: map<string, FileContent>, data: seq<LawData>)
    ensures Extends(files, StoreAll(files, data).files)
    decreases |data|
  {
    if data != [] && StoreItem(files, data[0]).Success? {
      var next := StoreItem(files, data[0]).value;
      StoreAtExtends(files, CategoryFilename(data[0].category), data[0]);
      StoreAllExtends(next, data[1..]);
    }
  }

  lemma WordSurvivesExtension(before: map<string, FileContent>, after: map<string, FileContent>, name: string, word: string)
    requires Extends(before, after) && RecordedAt(before, name, word)
    ensures RecordedAt(after, name, word)
  {
    var es := before[name].entries;
    var k :| 0 <= k < |es| && es[k].Record? && SameWord(es[k].data.word, word);
    assert after[name].entries[k] == es[k];
  }

  /** When the loop runs to the end, the word of every generated lesson is
      in its category file afterwards. */
  lemma {:induction false} StoreAllRecordsEveryItem(files: map<string, FileContent>, data: seq<LawData>)
    requires StoreAll(files, data).completed
    ensures forall item :: item in data ==> Recorded(StoreAll(files, data).files, item)
    decreases |data|
  {
    if data != [] {
      var next := StoreItem(files, data[0]).value;
      var run := StoreAll(files, data);
      assert run == StoreAll(next, data[1..]);
      FirstItemRecorded(files, data);
      StoreAllRecordsEveryItem(next, data[1..]);
      assert forall item :: item in data ==> item == data[0] || item in data[1..];
    }
  }

  lemma FirstItemRecorded(files: map<string, FileContent>, data: seq<LawData>)
    requires data != [] && StoreAll(files, data).completed
    ensures Recorded(StoreAll(files, data).files, data[0])
  {
    var name := CategoryFilename(data[0].category);
    var next := StoreAt(files, name, data[0]).value;
    StoreAtRecords(files, name, data[0]);
    StoreAllExtends(next, data[1..]);
    WordSurvivesExtension(next, StoreAll(next, data[1..]).files, name, data[0].word);
  }

  lemma StoreAtRecords(files: map<string, FileContent>, name: string, item: LawData)
    requires StoreAt(files, name, item).Success?
    ensures RecordedAt(StoreAt(files, name, item).value, name, item.word)
  {
    StoreAtEffect(files, name, item);
  }

  /** On a directory of arrays of objects with distinct words every turn
      succeeds and the directory stays that way. */
  lemma StoreAtKeepsDistinct(files: map<string, FileContent>, name: string, item: LawData)
    requires WellFormedDir(files)
    ensures StoreAt(files, name, item).Success?
    ensures WellFormedDir(StoreAt(files, name, item).value)
  {
    var prior := PriorEntries(files, name);
    FindDuplicateMeaning(prior, item.word);
    assert !FindDuplicate(prior, item.word).Failure?;
    if FindDuplicate(prior, item.word) == Success(false) {
      var es := prior + [Record(item)];
      forall k | 0 <= k < |es|
        ensures es[k].Record? && CheckedBefore(es, k, es[k].data.word)
      {
        if k < |prior| {
          assert CheckedBefore(prior, k, prior[k].data.word);
        } else {
          assert CheckedBefore(prior, |prior|, item.word);
        }
      }
    }
  }

  /** On such a directory the loop always runs to the end and leaves the
      directory that way. */
  lemma {:induction false} StoreAllKeepsDistinct(files: map<string, FileContent>, data: seq<LawData>)
    requires WellFormedDir(files)
    ensures StoreAll(files, data).completed
    ensures WellFormedDir(StoreAll(files, data).files)
    decreases |data|
  {
    if data != [] {
      StoreAtKeepsDistinct(files, CategoryFilename(data[0].category), data[0]);
      StoreAllKeepsDistinct(StoreItem(files, data[0]).value, data[1..]);
    }
  }
}
