/** The start-up loop over the data folder: each supported regular file is
    run through the per-file processor (`ProcessFile` at start-up), failures
    are skipped, and every non-empty text is appended under a
    "Content from <name>:" header. */
module Corpus {
  import opened Wrappers
  import opened Extractors

  /** One directory listing entry: its name and whether it is a regular
      file. The listing order is whatever the platform returns. */
  datatype Entry = Entry(name: string, isFile: bool)

  /** What processing one file gives: its text, `None` for an unsupported
      suffix, or the exception it raised. */
  type Processor = string -> Result<Option<string>, ExtractError>

  /** `process_file` with the parsers fixed. */
  function FileProcessor<T>(o: Oracles<T>): Processor {
    path => ProcessFile(path, o)
  }

  /** The section a file contributes. */
  function Section(name: string, content: string): string {
    "\nContent from " + name + ":\n" + content + "\n"
  }

  /** The entry is a supported regular file whose extraction succeeded
      with non-empty text. */
  predicate Contributes(e: Entry, process: Processor) {
    && e.isFile
    && IsSupported(e.name)
    && var r := process(e.name);
       r.Success? && r.value.Some? && r.value.value != ""
  }

  /** What one loop iteration appends: a section for a contributing entry,
      nothing for a directory, an unsupported name, a failed extraction or
      empty text. */
  function Contribution(e: Entry, process: Processor): (c: string)
    ensures c != "" <==> Contributes(e, process)
    ensures Contributes(e, process) ==> c == Section(e.name, process(e.name).value.value)
  {
    if e.isFile && IsSupported(e.name) then
      match process(e.name)
      case Success(Some(text)) => if text != "" then Section(e.name, text) else ""
      case _ => ""
    else ""
  }

  /** The combined corpus: the contributions of the entries in listing
      order. */
  function BuildCorpus(entries: seq<Entry>, process: Processor): string
    decreases |entries|
  {
    if |entries| == 0 then ""
    else Contribution(entries[0], process) + BuildCorpus(entries[1..], process)
  }

  /** The corpus is empty exactly when no entry contributes, which is the
      fatal start-up condition. */
  lemma {:induction false} BuildCorpusEmptyIff(entries: seq<Entry>, process: Processor)
    ensures BuildCorpus(entries, process) == "" <==>
      forall i | 0 <= i < |entries| :: !Contributes(entries[i], process)
    decreases |entries|
  {
    if |entries| > 0 {
      BuildCorpusEmptyIff(entries[1..], process);
      assert forall i | 1 <= i < |entries| :: entries[i] == entries[1..][i - 1];
    }
  }

  lemma BuildCorpusSingle(e: Entry, process: Processor)
    ensures BuildCorpus([e], process) == Contribution(e, process)
  {
    assert [e][1..] == [];
  }

  /** Building over two listings is building over each, concatenated. */
  lemma {:induction false} BuildCorpusAppend(a: seq<Entry>, b: seq<Entry>, process: Processor)
    ensures BuildCorpus(a + b, process) == BuildCorpus(a, process) + BuildCorpus(b, process)
    decreases |a|
  {
    if |a| == 0 {
      assert a + b == b;
    } else {
      assert (a + b)[0] == a[0];
      assert (a + b)[1..] == a[1..] + b;
      BuildCorpusAppend(a[1..], b, process);
    }
  }

  lemma BuildCorpusStep(entries: seq<Entry>, i: nat, process: Processor)
    requires i < |entries|
    ensures BuildCorpus(entries[..i + 1], process) == BuildCorpus(entries[..i], process) + Contribution(entries[i], process)
  {
    assert entries[..i + 1] == entries[..i] + [entries[i]];
    BuildCorpusAppend(entries[..i], [entries[i]], process);
    BuildCorpusSingle(entries[i], process);
  }

  /** A skipped entry (directory, unsupported name, failed or empty
      extraction) leaves the corpus exactly as if it were not listed. */
  lemma SkippedEntryIsInvisible(a: seq<Entry>, e: Entry, b: seq<Entry>, process: Processor)
    requires !Contributes(e, process)
    ensures BuildCorpus(a + [e] + b, process) == BuildCorpus(a + b, process)
  {
    BuildCorpusAppend(a + [e], b, process);
    BuildCorpusAppend(a, [e], process);
    BuildCorpusAppend(a, b, process);
    BuildCorpusSingle(e, process);
  }

  /** A contributing entry's section sits in the corpus between the text of
      the entries listed before it and that of the entries after it. */
  lemma ContributingEntryInPlace(before: seq<Entry>, e: Entry, after: seq<Entry>, process: Processor)
    requires Contributes(e, process)
    ensures BuildCorpus(before + [e] + after, process) ==
      BuildCorpus(before, process) + Section(e.name, process(e.name).value.value) + BuildCorpus(after, process)
  {
    BuildCorpusAppend(before + [e], after, process);
    BuildCorpusAppend(before, [e], process);
    BuildCorpusSingle(e, process);
  }

  /** The module-level `for filename in os.listdir(...)` loop, accumulating
      `combined_data` exactly as the code does. */
  method LoadCorpus(entries: seq<Entry>, process: Processor) returns (combined: string)
    ensures combined == BuildCorpus(entries, process)
  {
    combined := "";
    for i := 0 to |entries|
      invariant combined == BuildCorpus(entries[..i], process)
    {
      var e := entries[i];
      ghost var before := combined;
      if e.isFile && IsSupported(e.name) {
        var r := process(e.name);
        if r.Success? && r.value.Some? && r.value.value != "" {
          combined := combined + Section(e.name, r.value.value);
        }
      }
      assert combined == before + Contribution(e, process);
      BuildCorpusStep(entries, i, process);
    }
    assert entries[..|entries|] == entries;
  }
}
