/**
 * The queue behind the video pipeline: the first non-empty array among the
 * `.json` files of the input directory gives up its first lesson, which
 * becomes the data of the next video, and the file keeps the rest.
 */
module VideoFromInput {
  import opened Wrappers
  import opened LessonData

  /** Why the script stops before rendering anything. */
  datatype QueueError = MissingInputDir | NoJsonFiles | NoData

  /** The selected lesson, the index of its file in the listing, and the
      listing as it is afterwards. */
  datatype PopOutcome =
    | Failed(error: QueueError)
    | Popped(index: nat, lesson: Entry, files: seq<DirEntry>)

  /** A file the selection loop stops at: a `.json` file holding a
      non-empty array. */
  predicate Qualifies(f: DirEntry) {
    IsJsonName(f.name) && f.content.Array? && |f.content.entries| > 0
  }

  predicate IsFirstQualifying(files: seq<DirEntry>, i: int) {
    && 0 <= i < |files|
    && Qualifies(files[i])
    && (forall k :: 0 <= k < i ==> !Qualifies(files[k]))
  }

  /** The number of `.json` names in a listing. */
  function JsonCount(files: seq<DirEntry>): nat {
    if files == [] then 0
    else JsonCount(files[..|files| - 1]) + (if IsJsonName(files[|files| - 1].name) then 1 else 0)
  }

  /** The index of the first qualifying file, if any. */
  function FirstQualifying(files: seq<DirEntry>): Option<nat> {
    if files == [] then None
    else if Qualifies(files[0]) then Some(0)
    else match FirstQualifying(files[1..])
      case None => None
      case Some(i) => Some(i + 1)
  }

  /** The listing after the selected file is rewritten with `slice(1)`. */
  function AfterPop(files: seq<DirEntry>, i: nat): seq<DirEntry>
    requires i < |files| && files[i].content.Array? && |files[i].content.entries| > 0
  {
    files[i := DirEntry(files[i].name, Array(files[i].content.entries[1..]))]
  }

  /** The whole selection, from the directory (absent when it does not
      exist) to the lesson and the rewritten listing. A falsy first element
      stops the script like an empty queue does. */
  function Pop(dir: Option<seq<DirEntry>>): (r: PopOutcome)
    ensures r.Popped? ==> dir.Some? && r.index < |dir.value| && Qualifies(dir.value[r.index])
  {
    if dir.None? then Failed(MissingInputDir)
    else if JsonCount(dir.value) == 0 then Failed(NoJsonFiles)
    else match FirstQualifying(dir.value)
      case None => Failed(NoData)
      case Some(i) =>
        FirstQualifyingIsFirst(dir.value);
        var head := dir.value[i].content.entries[0];
        if Truthy(head) then Popped(i, head, AfterPop(dir.value, i)) else Failed(NoData)
  }

  /** `main` up to the two writes: the checks on the directory, the scan for
      the first non-empty array and the removal of its first element. */
  method PopLesson(dir: Option<seq<DirEntry>>) returns (out: PopOutcome)
    ensures out == Pop(dir)
  {
    if dir.None? {
      return Failed(MissingInputDir);
    }
    var files := dir.value;
    var jsonFiles := 0;
    for i := 0 to |files|
      invariant jsonFiles == JsonCount(files[..i])
    {
      assert files[..i + 1][..i] == files[..i];
      if IsJsonName(files[i].name) {
        jsonFiles := jsonFiles + 1;
      }
    }
    assert files[..|files|] == files;
    if jsonFiles == 0 {
      return Failed(NoJsonFiles);
    }
    FirstQualifyingIsFirst(files);
    var i := 0;
    while i < |files|
      invariant 0 <= i <= |files|
      invariant forall k :: 0 <= k < i ==> !Qualifies(files[k])
    {
      if IsJsonName(files[i].name) && files[i].content.Array? && |files[i].content.entries| > 0 {
        var content := files[i].content.entries;
        var selected := content[0];
        if !Truthy(selected) {
          return Failed(NoData);
        }
        return Popped(i, selected, files[i := DirEntry(files[i].name, Array(content[1..]))]);
      }
      i := i + 1;
    }
    out := Failed(NoData);
  }

  /** `FirstQualifying` finds exactly the first qualifying file. */
  lemma {:induction false} FirstQualifyingIsFirst(files: seq<DirEntry>)
    ensures FirstQualifying(files).None? <==> forall k :: 0 <= k < |files| ==> !Qualifies(files[k])
    ensures FirstQualifying(files).Some? ==> IsFirstQualifying(files, FirstQualifying(files).value)
  {
    if files != [] && !Qualifies(files[0]) {
      FirstQualifyingIsFirst(files[1..]);
      if FirstQualifying(files).None? {
        forall k | 0 < k < |files| ensures !Qualifies(files[k]) {
          assert files[k] == files[1..][k - 1];
        }
      } else {
        var i := FirstQualifying(files[1..]).value;
        forall k | 0 < k <= i ensures !Qualifies(files[k]) {
          assert files[k] == files[1..][k - 1];
        }
      }
      if forall k :: 0 <= k < |files| ==> !Qualifies(files[k]) {
        forall k | 0 <= k < |files[1..]| ensures !Qualifies(files[1..][k]) {
          assert files[1..][k] == files[k + 1];
        }
      }
    }
  }

  /** There is at most one first qualifying file. */
  lemma FirstQualifyingIsUnique(files: seq<DirEntry>, i: int, j: int)
    requires IsFirstQualifying(files, i) && IsFirstQualifying(files, j)
    ensures i == j
  {
  }

  /** No `.json` name is counted exactly when the listing has none. */
  lemma {:induction false} NoJsonCounted(files: seq<DirEntry>)
    ensures JsonCount(files) == 0 <==> forall k :: 0 <= k < |files| ==> !IsJsonName(files[k].name)
  {
    if files != [] {
      var init := files[..|files| - 1];
      NoJsonCounted(init);
      if JsonCount(files) == 0 {
        forall k | 0 <= k < |files| ensures !IsJsonName(files[k].name) {
          if k < |files| - 1 {
            assert files[k] == init[k];
          }
        }
      }
    }
  }

  /** The script fails exactly in these cases: no directory; no `.json`
      name; no `.json` file holding a non-empty array; or a falsy first
      element in the first one that does. Otherwise it takes the first
      element of that file, and the file keeps the rest. */
  lemma PopMeaning(dir: Option<seq<DirEntry>>)
    ensures Pop(dir) == Failed(MissingInputDir) <==> dir.None?
    ensures Pop(dir) == Failed(NoJsonFiles)
            <==> dir.Some? && forall k :: 0 <= k < |dir.value| ==> !IsJsonName(dir.value[k].name)
    ensures Pop(dir) == Failed(NoData)
            <==> && dir.Some?
                 && (exists k :: 0 <= k < |dir.value| && IsJsonName(dir.value[k].name))
                 && forall i :: IsFirstQualifying(dir.value, i) ==> !Truthy(dir.value[i].content.entries[0])
    ensures Pop(dir).Popped? <==>
              dir.Some? && exists i :: IsFirstQualifying(dir.value, i) && Truthy(dir.value[i].content.entries[0])
    ensures Pop(dir).Popped? ==>
              var i := Pop(dir).index;
              && IsFirstQualifying(dir.value, i)
              && Pop(dir).lesson == dir.value[i].content.entries[0]
              && Pop(dir).files == AfterPop(dir.value, i)
  {
    if dir.Some? {
      NoJsonCounted(dir.value);
      FirstQualifyingIsFirst(dir.value);
      if FirstQualifying(dir.value).Some? {
        var i := FirstQualifying(dir.value).value;
        forall j | IsFirstQualifying(dir.value, j) ensures j == i {
          FirstQualifyingIsUnique(dir.value, i, j);
        }
      }
    }
  }

  /** The number of lessons still queued: the elements of every array held
      by a `.json` file. */
  function Pending(files: seq<DirEntry>): nat {
    if files == [] then 0
    else
      var f := files[0];
      (if IsJsonName(f.name) && f.content.Array? then |f.content.entries| else 0) + Pending(files[1..])
  }

  /** Taking a lesson removes exactly one queued element, and the popped
      file still reads as the lesson followed by what is left. */
  lemma PopTakesExactlyOne(dir: Option<seq<DirEntry>>)
    requires Pop(dir).Popped?
    ensures Pending(Pop(dir).files) + 1 == Pending(dir.value)
    ensures var i := Pop(dir).index;
            && |Pop(dir).files| == |dir.value|
            && Pop(dir).files[i].name == dir.value[i].name
            && [Pop(dir).lesson] + Pop(dir).files[i].content.entries == dir.value[i].content.entries
            && forall k :: 0 <= k < |dir.value| && k != i ==> Pop(dir).files[k] == dir.value[k]
  {
    PopMeaning(dir);
    var i := Pop(dir).index;
    var es := dir.value[i].content.entries;
    assert [es[0]] + es[1..] == es;
    PendingAfterPop(dir.value, i);
  }

  lemma {:induction false} PendingAfterPop(files: seq<DirEntry>, i: nat)
    requires i < |files| && Qualifies(files[i])
    ensures Pending(AfterPop(files, i)) + 1 == Pending(files)
  {
    var after := AfterPop(files, i);
    if i == 0 {
      assert after[1..] == files[1..];
    } else {
      assert after[1..] == AfterPop(files[1..], i - 1);
      PendingAfterPop(files[1..], i - 1);
    }
  }

  /** Lessons leave the queue in listing order: the next run never goes
      back to an earlier file. */
  lemma NextPopNeverGoesBack(dir: Option<seq<DirEntry>>)
    requires Pop(dir).Popped?
    requires Pop(Some(Pop(dir).files)).Popped?
    ensures Pop(Some(Pop(dir).files)).index >= Pop(dir).index
  {
    PopMeaning(dir);
    var files := Pop(dir).files;
    PopMeaning(Some(files));
  }

  /** Within one file the lessons come out in array order: after the head is
      taken, a truthy second element is the next lesson. */
  lemma NextPopTakesSecondElement(dir: Option<seq<DirEntry>>)
    requires Pop(dir).Popped?
    requires var i := Pop(dir).index;
             |dir.value[i].content.entries| >= 2 && Truthy(dir.value[i].content.entries[1])
    ensures var i := Pop(dir).index;
            && Pop(Some(Pop(dir).files)).Popped?
            && Pop(Some(Pop(dir).files)).index == i
            && Pop(Some(Pop(dir).files)).lesson == dir.value[i].content.entries[1]
  {
    PopMeaning(dir);
    var files := Pop(dir).files;
    var i := Pop(dir).index;
    assert IsFirstQualifying(files, i) by {
      forall k | 0 <= k < i ensures !Qualifies(files[k]) {
        assert files[k] == dir.value[k];
      }
    }
    assert files[i].content.entries[0] == dir.value[i].content.entries[1];
    assert IsJsonName(files[i].name);
    PopMeaning(Some(files));
  }
}
