/** The multi-file picker: a batch is taken only while the total stays
    within five files, and accepted batches go in front of the files
    already chosen. */
module Uploads {

  datatype File = File(name: string)

  const MaxFiles: nat := 5

  /** The list after one `onChange`: unchanged when the batch would take the
      total over the cap, the new batch in front otherwise. */
  function AfterChange(files: seq<File>, newFiles: seq<File>): seq<File> {
    if |newFiles| + |files| > MaxFiles then files else newFiles + files
  }

  /** One change keeps the list within the cap, and an accepted batch grows
      it by exactly its own size, in front of the old files. */
  lemma AfterChangeBounded(files: seq<File>, newFiles: seq<File>)
    requires |files| <= MaxFiles
    ensures |AfterChange(files, newFiles)| <= MaxFiles
    ensures |newFiles| + |files| <= MaxFiles ==>
      |AfterChange(files, newFiles)| == |files| + |newFiles|
      && AfterChange(files, newFiles)[..|newFiles|] == newFiles
      && AfterChange(files, newFiles)[|newFiles|..] == files
  {
  }

  /** The list after a series of `onChange` events starting from none. */
  function Replay(batches: seq<seq<File>>): seq<File> {
    if batches == [] then [] else AfterChange(Replay(batches[..|batches| - 1]), batches[|batches| - 1])
  }

  /** Whatever batches arrive, the list never holds more than five files. */
  lemma {:induction false} ReplayBounded(batches: seq<seq<File>>)
    ensures |Replay(batches)| <= MaxFiles
  {
    if batches != [] {
      ReplayBounded(batches[..|batches| - 1]);
      AfterChangeBounded(Replay(batches[..|batches| - 1]), batches[|batches| - 1]);
    }
  }

  /** The component and its `files` state. */
  class FileUpload {
    var files: seq<File>

    ghost predicate Valid()
      reads this
    {
      |files| <= MaxFiles
    }

    constructor ()
      ensures files == [] && Valid()
    {
      files := [];
    }

    /** `onChange`: rejects (and alerts) when the total would exceed the cap;
        otherwise prepends the batch. */
    method OnChange(newFiles: seq<File>) returns (accepted: bool)
      modifies this
      ensures accepted <==> |newFiles| + |old(files)| <= MaxFiles
      ensures files == AfterChange(old(files), newFiles)
      ensures old(Valid()) ==> Valid()
    {
      if |newFiles| + |files| > MaxFiles {
        return false;
      }
      files := newFiles + files;
      accepted := true;
    }
  }
}
