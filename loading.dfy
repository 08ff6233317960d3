/** Reading a list of map files one after another, as AddProcessor does:
    each file gives a map or a failure, and the maps take consecutive
    identities.  How a single file reads is a parameter here. */
module Loading {
  import opened Wrappers
  import opened Processors
  import opened StoreRules

  /** What one file adds to the maps read and the failures so far. */
  function Collect(acc: (seq<Processor>, seq<StoreError>), a: Result<Processor, StoreError>)
    : (seq<Processor>, seq<StoreError>)
  {
    if a.Ok? then (acc.0 + [a.value], acc.1) else (acc.0, acc.1 + [a.error])
  }

  /** What reading the files one after another with `read` gives: the maps
      read, which take consecutive identities from `id` on, and the
      failures, in order.  Every file gives exactly one of the two. */
  function Run(read: (string, nat) -> Result<Processor, StoreError>, files: seq<string>, id: nat)
    : (r: (seq<Processor>, seq<StoreError>))
    ensures |r.0| + |r.1| == |files|
    decreases |files|
  {
    if files == [] then ([], [])
    else
      var prev := Run(read, files[..|files| - 1], id);
      Collect(prev, read(files[|files| - 1], id + |prev.0|))
  }

  /** Run of a non-empty list, one file back. */
  lemma RunUnfold(read: (string, nat) -> Result<Processor, StoreError>, files: seq<string>, id: nat)
    requires files != []
    ensures var prev := Run(read, files[..|files| - 1], id);
            Run(read, files, id) == Collect(prev, read(files[|files| - 1], id + |prev.0|))
  {
  }

  /** Adding the next file to what the files before it gave, as one turn
      of AddProcessor's loop does, gives what the longer list gives. */
  lemma RunAppend(read: (string, nat) -> Result<Processor, StoreError>, files: seq<string>, id: nat, i: nat,
                  acc: (seq<Processor>, seq<StoreError>))
    requires i < |files| && acc == Run(read, files[..i], id)
    ensures Collect(acc, read(files[i], id + |acc.0|)) == Run(read, files[..i + 1], id)
  {
    var pre := files[..i + 1];
    assert pre[..|pre| - 1] == files[..i];
    assert pre[|pre| - 1] == files[i];
    RunUnfold(read, pre, id);
  }

  /** A property holds of every element exactly when it holds of every
      element but the last, and of the last. */
  lemma EveryOfInit(s: seq<string>, init: seq<string>, p: string -> bool)
    requires s != [] && init == s[..|s| - 1]
    ensures (forall k :: 0 <= k < |s| ==> p(s[k])) <==>
              (forall k :: 0 <= k < |init| ==> p(init[k])) && p(s[|s| - 1])
  {
    assert forall k :: 0 <= k < |init| ==> init[k] == s[k];
  }
}
