/**
 * The clean-up after a render: the audio files that belong to one video are
 * recognised by name and deleted, everything else in the audio directory is
 * kept, and the deletions are counted.
 */
module CleanupAudio {
  import opened Wrappers
  import opened Text

  /** The two shapes of the anchored regular expressions in the list:
      `^name$`, and `^prefix.*suffix$`. */
  datatype Pattern = Exact(name: string) | Wildcard(prefix: string, suffix: string)

  /** `PATTERNS_TO_DELETE`, in order. */
  const PatternsToDelete: seq<Pattern> := [
    Exact("title.mp3"),
    Wildcard("word", ".mp3"),
    Wildcard("definition", ".mp3"),
    Wildcard("context", ".mp3"),
    Wildcard("example", ".mp3"),
    Wildcard("vocab_", ".mp3")
  ]

  /** What `.*` can cover without the `s` flag: no line terminator. */
  predicate NoLineTerminator(s: string) {
    forall i :: 0 <= i < |s| ==> !IsLineTerminator(s[i])
  }

  /** `pattern.test(file)`: the whole name is matched, case-sensitively;
      `$` without the `m` flag only matches at the very end. */
  predicate Matches(p: Pattern, file: string) {
    match p
    case Exact(n) => file == n
    case Wildcard(pre, suf) =>
      && |pre| + |suf| <= |file|
      && HasPrefix(file, pre)
      && HasSuffix(file, suf)
      && NoLineTerminator(file[|pre|..|file| - |suf|])
  }

  /** `patterns.some(pattern => pattern.test(file))`. */
  predicate SomeMatches(patterns: seq<Pattern>, file: string) {
    patterns != [] && (Matches(patterns[0], file) || SomeMatches(patterns[1..], file))
  }

  predicate ShouldDelete(file: string) {
    SomeMatches(PatternsToDelete, file)
  }

  /** The names the loop unlinks, in listing order. */
  function Deleted(files: seq<string>): seq<string> {
    if files == [] then []
    else
      var last := files[|files| - 1];
      Deleted(files[..|files| - 1]) + (if ShouldDelete(last) then [last] else [])
  }

  /** The names left in the directory, in listing order. */
  function Kept(files: seq<string>): seq<string> {
    if files == [] then []
    else
      var last := files[|files| - 1];
      Kept(files[..|files| - 1]) + (if ShouldDelete(last) then [] else [last])
  }

  /** `cleanup`: a missing directory ends the run with nothing deleted;
      otherwise every listed name that matches a pattern is unlinked and
      counted. */
  method Cleanup(dir: Option<seq<string>>) returns (deleted: seq<string>, remaining: seq<string>, deletedCount: nat)
    ensures dir.None? ==> deleted == [] && remaining == [] && deletedCount == 0
    ensures dir.Some? ==> deleted == Deleted(dir.value) && remaining == Kept(dir.value)
    ensures deletedCount == |deleted|
  {
    deleted, remaining, deletedCount := [], [], 0;
    if dir.None? {
      return;
    }
    var files := dir.value;
    for i := 0 to |files|
      invariant deleted == Deleted(files[..i]) && remaining == Kept(files[..i])
      invariant deletedCount == |deleted|
    {
      assert files[..i + 1][..i] == files[..i];
      var file := files[i];
      var shouldDelete := SomeMatches(PatternsToDelete, file);
      if shouldDelete {
        deleted := deleted + [file];
        deletedCount := deletedCount + 1;
      } else {
        remaining := remaining + [file];
      }
    }
    assert files[..|files|] == files;
  }

  /** `some` holds exactly when one of the patterns matches. */
  lemma {:induction false} SomeMatchesExactly(patterns: seq<Pattern>, file: string)
    ensures SomeMatches(patterns, file) <==> exists i :: 0 <= i < |patterns| && Matches(patterns[i], file)
  {
    if patterns != [] {
      SomeMatchesExactly(patterns[1..], file);
      if i :| 0 < i < |patterns| && Matches(patterns[i], file) {
        assert Matches(patterns[1..][i - 1], file);
      }
      if i :| 0 <= i < |patterns[1..]| && Matches(patterns[1..][i], file) {
        assert Matches(patterns[i + 1], file);
      }
    }
  }

  /** The loop splits the listing: every unlinked name matches, every kept
      name does not, and together they are the listing. */
  lemma CleanupPartitions(files: seq<string>)
    ensures forall f :: f in Deleted(files) ==> ShouldDelete(f)
    ensures forall f :: f in Kept(files) ==> !ShouldDelete(f)
    ensures multiset(Deleted(files)) + multiset(Kept(files)) == multiset(files)
  {
    DeletedAllMatch(files);
    KeptNoneMatch(files);
    PartsMakeListing(files);
  }

  lemma {:induction false} DeletedAllMatch(files: seq<string>)
    ensures forall f :: f in Deleted(files) ==> ShouldDelete(f)
  {
    if files != [] {
      DeletedAllMatch(files[..|files| - 1]);
    }
  }

  lemma {:induction false} KeptNoneMatch(files: seq<string>)
    ensures forall f :: f in Kept(files) ==> !ShouldDelete(f)
  {
    if files != [] {
      KeptNoneMatch(files[..|files| - 1]);
    }
  }

  lemma {:induction false} PartsMakeListing(files: seq<string>)
    ensures multiset(Deleted(files)) + multiset(Kept(files)) == multiset(files)
  {
    if files != [] {
      var init, last := files[..|files| - 1], files[|files| - 1];
      PartsMakeListing(init);
      assert files == init + [last];
    }
  }

  /** Every listed name is either unlinked or kept. */
  lemma {:induction false} CleanupCountsAdd(files: seq<string>)
    ensures |Deleted(files)| + |Kept(files)| == |files|
  {
    if files != [] {
      CleanupCountsAdd(files[..|files| - 1]);
    }
  }

  /** A name is unlinked exactly when it is listed and matches. */
  lemma DeletedExactly(files: seq<string>, f: string)
    ensures f in Deleted(files) <==> f in files && ShouldDelete(f)
    ensures f in Kept(files) <==> f in files && !ShouldDelete(f)
  {
    CleanupPartitions(files);
    assert f in files <==> f in multiset(files);
  }

  /** The count is the number of listed names that match. */
  lemma {:induction false} DeletedCountsMatches(files: seq<string>)
    ensures |Deleted(files)| == |set i | 0 <= i < |files| && ShouldDelete(files[i])|
  {
    if files != [] {
      var n := |files| - 1;
      DeletedCountsMatches(files[..n]);
      var before := set i | 0 <= i < n && ShouldDelete(files[..n][i]);
      var now := set i | 0 <= i < |files| && ShouldDelete(files[i]);
      assert before == set i | 0 <= i < n && ShouldDelete(files[i]);
      if ShouldDelete(files[n]) {
        assert now == before + {n};
      } else {
        assert now == before;
      }
    }
  }

  // ---------------------------------------------------------------------
  // Names

  /** A `Wildcard` pattern matches its prefix, any text without a line
      terminator, and its suffix. */
  lemma WildcardMatches(pre: string, middle: string, suf: string)
    requires NoLineTerminator(middle)
    ensures Matches(Wildcard(pre, suf), pre + middle + suf)
  {
    var f := pre + middle + suf;
    assert f[..|pre|] == pre;
    assert f[|f| - |suf|..] == suf;
    assert f[|pre|..|f| - |suf|] == middle;
  }

  /** Decimal digits of a natural number, as `${i}` writes it. */
  function DecimalString(n: nat): (r: string)
    ensures r != [] && forall k :: 0 <= k < |r| ==> '0' <= r[k] <= '9'
  {
    if n < 10 then [DigitChar(n)] else DecimalString(n / 10) + [DigitChar(n % 10)]
  }

  function DigitChar(d: nat): (c: char)
    requires d < 10
    ensures '0' <= c <= '9'
  {
    (48 + d) as char
  }

  /** The name of one spoken field, `<stem>_en.mp3` or `<stem>_jp.mp3`. */
  function SpokenName(stem: string, lang: string): string {
    stem + "_" + lang + ".mp3"
  }

  /** The file names the audio generator writes for a lesson with `n`
      vocabulary items. */
  function GeneratedAudioNames(n: nat): seq<string> {
    ["title.mp3"]
    + [SpokenName("word", "en"), SpokenName("word", "jp")]
    + [SpokenName("definition", "en"), SpokenName("definition", "jp")]
    + [SpokenName("context", "en"), SpokenName("context", "jp")]
    + [SpokenName("example", "en"), SpokenName("example", "jp")]
    + seq(n, i requires 0 <= i => VocabName(i))
  }

  function VocabName(i: nat): string {
    "vocab_" + DecimalString(i) + ".mp3"
  }

  /** Every file the audio generator writes is deleted by the clean-up. */
  lemma GeneratedAudioIsDeleted(n: nat)
    ensures forall f :: f in GeneratedAudioNames(n) ==> ShouldDelete(f)
  {
    var names := GeneratedAudioNames(n);
    SomeMatchesExactly(PatternsToDelete, "title.mp3");
    assert Matches(PatternsToDelete[0], "title.mp3");
    SpokenNameDeleted(1, "en");
    SpokenNameDeleted(1, "jp");
    SpokenNameDeleted(2, "en");
    SpokenNameDeleted(2, "jp");
    SpokenNameDeleted(3, "en");
    SpokenNameDeleted(3, "jp");
    SpokenNameDeleted(4, "en");
    SpokenNameDeleted(4, "jp");
    forall j | 9 <= j < |names| ensures ShouldDelete(names[j]) {
      assert names[j] == VocabName(j - 9);
      VocabNameDeleted(j - 9);
    }
  }

  lemma SpokenNameDeleted(k: nat, lang: string)
    requires 1 <= k <= 4 && lang in ["en", "jp"]
    ensures ShouldDelete(SpokenName(PatternsToDelete[k].prefix, lang))
  {
    var middle := "_" + lang;
    assert NoLineTerminator(middle);
    assert SpokenName(PatternsToDelete[k].prefix, lang) == PatternsToDelete[k].prefix + middle + ".mp3";
    WildcardNameDeleted(k, middle);
  }

  lemma VocabNameDeleted(i: nat)
    ensures ShouldDelete(VocabName(i))
  {
    var d := DecimalString(i);
    assert NoLineTerminator(d) by {
      forall k | 0 <= k < |d| ensures !IsLineTerminator(d[k]) {
        assert '0' <= d[k] <= '9';
      }
    }
    WildcardNameDeleted(5, d);
  }

  /** A name made of the prefix of one of the `.*` patterns, any text
      without a line terminator and ".mp3" is deleted. */
  lemma WildcardNameDeleted(k: nat, middle: string)
    requires 1 <= k < |PatternsToDelete| && NoLineTerminator(middle)
    ensures ShouldDelete(PatternsToDelete[k].prefix + middle + ".mp3")
  {
    var p := PatternsToDelete[k];
    assert p.Wildcard? && p.suffix == ".mp3";
    WildcardMatches(p.prefix, middle, ".mp3");
    SomeMatchesExactly(PatternsToDelete, p.prefix + middle + ".mp3");
  }

  // ---------------------------------------------------------------------
  // What the anchoring means

  /** Only names ending exactly in ".mp3" are deleted. */
  lemma DeletedNamesEndInMp3(f: string)
    requires ShouldDelete(f)
    ensures HasSuffix(f, ".mp3")
  {
    SomeMatchesExactly(PatternsToDelete, f);
  }

  /** A deleted name is "title.mp3" itself or starts with the prefix of one
      of the other patterns. */
  lemma DeletedNamesStartWithPrefix(f: string)
    requires ShouldDelete(f)
    ensures f == "title.mp3" || exists k :: 1 <= k < |PatternsToDelete| && HasPrefix(f, PatternsToDelete[k].prefix)
  {
    SomeMatchesExactly(PatternsToDelete, f);
  }

  /** "title.mp3" goes only as that exact name; "word.mp3" needs nothing
      between the prefix and ".mp3"; the vocabulary files need the
      underscore. */
  lemma ExampleNamesDeleted()
    ensures ShouldDelete("title.mp3")
    ensures ShouldDelete("word.mp3")
    ensures ShouldDelete("vocab_3.mp3")
  {
    SomeMatchesExactly(PatternsToDelete, "title.mp3");
    assert Matches(PatternsToDelete[0], "title.mp3");
    assert "word.mp3" == PatternsToDelete[1].prefix + "" + ".mp3";
    WildcardNameDeleted(1, "");
    assert "vocab_3.mp3" == PatternsToDelete[5].prefix + "3" + ".mp3";
    WildcardNameDeleted(5, "3");
  }

  /** "title.mp3" is deleted only under that exact name: neither a longer
      name nor one with text in front of it goes. */
  lemma LongerTitleKept()
    ensures !ShouldDelete("title2.mp3")
  {
    FirstCharRulesOutPrefixes("title2.mp3");
    NoPrefixKept("title2.mp3");
  }

  lemma PrefixedTitleKept()
    ensures !ShouldDelete("subtitle.mp3")
  {
    FirstCharRulesOutPrefixes("subtitle.mp3");
    NoPrefixKept("subtitle.mp3");
  }

  /** Vocabulary files are recognised only with the underscore. */
  lemma VocabWithoutUnderscoreKept()
    ensures !ShouldDelete("vocab3.mp3")
  {
    VocabNeedsUnderscore("vocab3.mp3");
    NoPrefixKept("vocab3.mp3");
  }

  /** The match is anchored at the end. */
  lemma TrailingTextKept()
    ensures !ShouldDelete("word_en.mp3.bak")
  {
    NoSuffixKept("word_en.mp3.bak");
  }

  /** The match is case-sensitive. */
  lemma CapitalisedNameKept()
    ensures !ShouldDelete("Title.mp3")
  {
    FirstCharRulesOutPrefixes("Title.mp3");
    NoPrefixKept("Title.mp3");
  }

  /** A name other than "title.mp3" that starts with none of the prefixes
      is kept. */
  lemma NoPrefixKept(f: string)
    requires f != "title.mp3"
    requires forall k :: 1 <= k < |PatternsToDelete| ==> !HasPrefix(f, PatternsToDelete[k].prefix)
    ensures !ShouldDelete(f)
  {
    SomeMatchesExactly(PatternsToDelete, f);
  }

  /** A name that does not end in ".mp3" is kept. */
  lemma NoSuffixKept(f: string)
    requires !HasSuffix(f, ".mp3")
    ensures !ShouldDelete(f)
  {
    SomeMatchesExactly(PatternsToDelete, f);
  }

  lemma PrefixDiffersAt(f: string, p: string, i: nat)
    requires i < |p| && (i >= |f| || f[i] != p[i])
    ensures !HasPrefix(f, p)
  {
    if |p| <= |f| {
      assert f[..|p|][i] == f[i];
    }
  }

  /** A name whose first letter starts none of the prefixes matches none. */
  lemma FirstCharRulesOutPrefixes(f: string)
    requires f != [] && f[0] !in "wdcev"
    ensures forall k :: 1 <= k < |PatternsToDelete| ==> !HasPrefix(f, PatternsToDelete[k].prefix)
  {
    forall k | 1 <= k < |PatternsToDelete|
      ensures !HasPrefix(f, PatternsToDelete[k].prefix)
    {
      var p := PatternsToDelete[k].prefix;
      assert p[0] in "wdcev";
      PrefixDiffersAt(f, p, 0);
    }
  }

  /** "vocab" followed by anything but an underscore matches no prefix. */
  lemma VocabNeedsUnderscore(f: string)
    requires |f| > 5 && f[..5] == "vocab" && f[5] != '_'
    ensures forall k :: 1 <= k < |PatternsToDelete| ==> !HasPrefix(f, PatternsToDelete[k].prefix)
  {
    forall k | 1 <= k < |PatternsToDelete|
      ensures !HasPrefix(f, PatternsToDelete[k].prefix)
    {
      var p := PatternsToDelete[k].prefix;
      if k == 5 {
        PrefixDiffersAt(f, p, 5);
      } else {
        assert f[0] == 'v' != p[0];
        PrefixDiffersAt(f, p, 0);
      }
    }
  }
}
