/**
 * RBTService: prepares one translation process per selected target file, runs the processor
 * over the entries of every process, writes back the documents of the translated processes
 * and counts the translated entries.
 */
module RbtService {
  import opened Wrappers
  import opened TranslationFiles
  import opened Engine
  import opened PropertiesModels
  import GoogleProcessor

  // ---------------------------------------------------------------------------------------
  // Sums over processes
  // ---------------------------------------------------------------------------------------

  /** The number of entries of all requests. */
  function TotalEntries(ps: seq<Process>): nat
    decreases |ps|
  {
    if ps == [] then 0 else TotalEntries(ps[..|ps| - 1]) + |ps[|ps| - 1].request.entries|
  }

  /** The number of entries the library says need translating, over all requests. */
  function PendingCount(ps: seq<Process>, lib: Library): nat
    decreases |ps|
  {
    if ps == [] then 0 else PendingCount(ps[..|ps| - 1], lib) + lib.count(ps[|ps| - 1].request)
  }

  /** The number of entries with a translation time stamp. */
  function Stamped(es: seq<Entry>): nat
    decreases |es|
  {
    if es == [] then 0 else Stamped(es[..|es| - 1]) + (if es[|es| - 1].timestamp.Some? then 1 else 0)
  }

  /** The number of entries with a translation time stamp, over all requests. */
  function TranslatedCount(ps: seq<Process>): nat
    decreases |ps|
  {
    if ps == [] then 0 else TranslatedCount(ps[..|ps| - 1]) + Stamped(ps[|ps| - 1].request.entries)
  }

  /** No more entries are stamped than there are entries. */
  lemma {:induction false} StampedAtMostAll(es: seq<Entry>)
    ensures Stamped(es) <= |es|
    decreases |es|
  {
    if es != [] {
      StampedAtMostAll(es[..|es| - 1]);
    }
  }

  /** The translated count never exceeds the number of entries. */
  lemma {:induction false} TranslatedCountAtMostTotal(ps: seq<Process>)
    ensures TranslatedCount(ps) <= TotalEntries(ps)
    decreases |ps|
  {
    if ps != [] {
      TranslatedCountAtMostTotal(ps[..|ps| - 1]);
      StampedAtMostAll(ps[|ps| - 1].request.entries);
    }
  }

  /** Entries are stamped exactly when each of them is. */
  lemma {:induction false} StampedAll(es: seq<Entry>)
    ensures Stamped(es) == |es| <==> forall j | 0 <= j < |es| :: es[j].timestamp.Some?
    decreases |es|
  {
    if es != [] {
      var init := es[..|es| - 1];
      StampedAll(init);
      StampedAtMostAll(init);
      assert forall j | 0 <= j < |init| :: init[j] == es[j];
    }
  }

  // ---------------------------------------------------------------------------------------
  // prepare
  // ---------------------------------------------------------------------------------------

  /** The request made for translating the source file into a target file; `readEntries`
    * stands for the library reading both documents into entries. */
  function RequestFor(source: TranslationFile, target: TranslationFile,
                      readEntries: (TranslationFile, TranslationFile) -> seq<Entry>): Request {
    Request(source, target, source.locale, target.locale, readEntries(source, target))
  }

  // ---------------------------------------------------------------------------------------
  // execute: one pass over the processes
  // ---------------------------------------------------------------------------------------

  /** The entries after the processor went over them in order, the exception that stopped it
    * if any, and the number of entries it translated. */
  datatype EntryPass = EntryPass(entries: seq<Entry>, failure: Option<TranslationException>, successes: nat)

  /** The processor applied to the entries in list order until the first exception; the entry
    * that throws and those after it stay as they were. */
  function EntriesPass(es: seq<Entry>, sl: Locale, tl: Locale, processor: Processor): EntryPass
    decreases |es|
  {
    if es == [] then EntryPass([], None, 0)
    else
      var before := EntriesPass(es[..|es| - 1], sl, tl, processor);
      var e := es[|es| - 1];
      if before.failure.Some? then EntryPass(before.entries + [e], before.failure, before.successes)
      else match processor(sl, tl, e)
        case Failure(x) => EntryPass(before.entries + [e], Some(x), before.successes)
        case Success(e') => EntryPass(before.entries + [e'], None, before.successes + 1)
  }

  /** A process after its turn in the pass, the exception it threw if any, and the number of
    * entries translated. */
  datatype ProcessTurn = ProcessTurn(process: Process, failure: Option<TranslationException>, successes: nat)

  /** The turn of one process: a process that needs processing has its entries translated and
    * is marked translated when none of them threw. */
  function ProcessPass(p: Process, lib: Library, processor: Processor): ProcessTurn {
    if !lib.requireProcessing(p.request) then ProcessTurn(p, None, 0)
    else
      var ep := EntriesPass(p.request.entries, p.request.sourceLocale, p.request.targetLocale, processor);
      ProcessTurn(Process(p.request.(entries := ep.entries), if ep.failure.None? then true else p.translated),
                  ep.failure, ep.successes)
  }

  /** The processes after a pass, the exception that aborted it if any, and the number of
    * entries translated. */
  datatype Pass = Pass(processes: seq<Process>, failure: Option<TranslationException>, successes: nat)

  /** The processes in list order, each taking its turn, until the first exception aborts the
    * whole pass; the processes after it are not attempted. */
  function RunPass(ps: seq<Process>, lib: Library, processor: Processor): Pass
    decreases |ps|
  {
    if ps == [] then Pass([], None, 0)
    else
      var before := RunPass(ps[..|ps| - 1], lib, processor);
      var p := ps[|ps| - 1];
      if before.failure.Some? then Pass(before.processes + [p], before.failure, before.successes)
      else
        var turn := ProcessPass(p, lib, processor);
        Pass(before.processes + [turn.process], turn.failure, before.successes + turn.successes)
  }

  /** The entry pass keeps the number of entries, and translates at most all of them. */
  lemma {:induction false} EntriesPassShape(es: seq<Entry>, sl: Locale, tl: Locale, processor: Processor)
    ensures |EntriesPass(es, sl, tl, processor).entries| == |es|
    ensures EntriesPass(es, sl, tl, processor).successes <= |es|
    ensures EntriesPass(es, sl, tl, processor).failure.None? ==> EntriesPass(es, sl, tl, processor).successes == |es|
    decreases |es|
  {
    if es != [] {
      EntriesPassShape(es[..|es| - 1], sl, tl, processor);
    }
  }

  /** Once the processor has thrown on a prefix of the entries, the rest stay as they were. */
  lemma {:induction false} EntriesPassAfterFailure(es: seq<Entry>, sl: Locale, tl: Locale, processor: Processor, n: nat)
    requires n <= |es| && EntriesPass(es[..n], sl, tl, processor).failure.Some?
    ensures EntriesPass(es, sl, tl, processor) ==
            var before := EntriesPass(es[..n], sl, tl, processor);
            EntryPass(before.entries + es[n..], before.failure, before.successes)
    decreases |es| - n
  {
    var before := EntriesPass(es[..n], sl, tl, processor);
    if n == |es| {
      assert es[..n] == es;
      assert es[n..] == [];
      assert before.entries + [] == before.entries;
    } else {
      assert es[..n + 1][..n] == es[..n];
      assert es[..n + 1][n] == es[n];
      assert EntriesPass(es[..n + 1], sl, tl, processor) == EntryPass(before.entries + [es[n]], before.failure, before.successes);
      EntriesPassAfterFailure(es, sl, tl, processor, n + 1);
      assert before.entries + [es[n]] + es[n + 1..] == before.entries + es[n..];
    }
  }

  /** When no entry threw, every entry was replaced by the processor's result for it. */
  lemma {:induction false} EntriesPassAllTranslated(es: seq<Entry>, sl: Locale, tl: Locale, processor: Processor)
    requires EntriesPass(es, sl, tl, processor).failure.None?
    ensures forall j | 0 <= j < |es| ::
              processor(sl, tl, es[j]).Success?
              && j < |EntriesPass(es, sl, tl, processor).entries|
              && EntriesPass(es, sl, tl, processor).entries[j] == processor(sl, tl, es[j]).value
    decreases |es|
  {
    if es != [] {
      var init := es[..|es| - 1];
      EntriesPassAllTranslated(init, sl, tl, processor);
      EntriesPassShape(init, sl, tl, processor);
      assert forall j | 0 <= j < |init| :: init[j] == es[j];
    }
  }

  /** Once a prefix of the pass was aborted, the processes after it are left as they were. */
  lemma {:induction false} RunPassAfterFailure(ps: seq<Process>, lib: Library, processor: Processor, n: nat)
    requires n <= |ps| && RunPass(ps[..n], lib, processor).failure.Some?
    ensures RunPass(ps, lib, processor) ==
            var before := RunPass(ps[..n], lib, processor);
            Pass(before.processes + ps[n..], before.failure, before.successes)
    decreases |ps| - n
  {
    var before := RunPass(ps[..n], lib, processor);
    if n == |ps| {
      assert ps[..n] == ps;
      assert ps[n..] == [];
      assert before.processes + [] == before.processes;
    } else {
      assert ps[..n + 1][..n] == ps[..n];
      assert ps[..n + 1][n] == ps[n];
      assert RunPass(ps[..n + 1], lib, processor) == Pass(before.processes + [ps[n]], before.failure, before.successes);
      RunPassAfterFailure(ps, lib, processor, n + 1);
      assert before.processes + [ps[n]] + ps[n + 1..] == before.processes + ps[n..];
    }
  }

  /** One more turn of the pass, for a pass not yet aborted. */
  lemma RunPassStep(ps: seq<Process>, lib: Library, processor: Processor, k: nat, done: seq<Process>, successes: nat)
    requires k < |ps| && RunPass(ps[..k], lib, processor) == Pass(done, None, successes)
    ensures var turn := ProcessPass(ps[k], lib, processor);
            RunPass(ps[..k + 1], lib, processor) == Pass(done + [turn.process], turn.failure, successes + turn.successes)
  {
    assert ps[..k + 1][..k] == ps[..k];
  }

  /** One more entry of the pass, for a pass that has not thrown yet. */
  lemma EntriesPassStep(es: seq<Entry>, sl: Locale, tl: Locale, processor: Processor, j: nat,
                        done: seq<Entry>, successes: nat)
    requires j < |es| && EntriesPass(es[..j], sl, tl, processor) == EntryPass(done, None, successes)
    ensures var r := processor(sl, tl, es[j]);
            EntriesPass(es[..j + 1], sl, tl, processor) ==
            if r.Failure? then EntryPass(done + [es[j]], Some(r.error), successes)
            else EntryPass(done + [r.value], None, successes + 1)
  {
    assert es[..j + 1][..j] == es[..j];
  }

  /** A suffix of a sequence is the suffix of all but its last element, then the last. */
  lemma SuffixOfInit<T>(s: seq<T>, k: nat)
    requires k < |s|
    ensures s[k..] == s[..|s| - 1][k..] + [s[|s| - 1]]
  {
  }

  /** Replacing the element at `k` of a sequence splits it into the prefix, that element and
    * the suffix. */
  lemma SequenceStep<T>(s: seq<T>, k: nat, x: T)
    requires k < |s|
    ensures s[k := x][..k + 1] == s[..k] + [x] && s[k := x][k + 1..] == s[k + 1..]
    ensures s[k := x] == s[..k] + [x] + s[k + 1..]
  {
  }

  /** The pass keeps the processes and their requests, except for the entries, and keeps the
    * number of entries of each. */
  lemma {:induction false} RunPassShape(ps: seq<Process>, lib: Library, processor: Processor)
    ensures |RunPass(ps, lib, processor).processes| == |ps|
    ensures forall i | 0 <= i < |ps| ::
              RunPass(ps, lib, processor).processes[i].request.(entries := ps[i].request.entries) == ps[i].request
              && |RunPass(ps, lib, processor).processes[i].request.entries| == |ps[i].request.entries|
    decreases |ps|
  {
    if ps != [] {
      var init := ps[..|ps| - 1];
      RunPassShape(init, lib, processor);
      var p := ps[|ps| - 1];
      EntriesPassShape(p.request.entries, p.request.sourceLocale, p.request.targetLocale, processor);
      assert forall i | 0 <= i < |init| :: init[i] == ps[i];
    }
  }

  /** A process is newly marked translated only when it needed processing and every one of
    * its entries went through the processor without an exception, each replaced by the
    * processor's result. */
  lemma {:induction false} TranslatedOnlyWhenAllSucceeded(ps: seq<Process>, lib: Library, processor: Processor, i: nat)
    requires i < |ps| && !ps[i].translated
    requires i < |RunPass(ps, lib, processor).processes| && RunPass(ps, lib, processor).processes[i].translated
    ensures lib.requireProcessing(ps[i].request)
    ensures var r := ps[i].request;
            var es := RunPass(ps, lib, processor).processes[i].request.entries;
            |es| == |r.entries|
            && forall j | 0 <= j < |r.entries| ::
                 processor(r.sourceLocale, r.targetLocale, r.entries[j]).Success?
                 && es[j] == processor(r.sourceLocale, r.targetLocale, r.entries[j]).value
    decreases |ps|
  {
    var init := ps[..|ps| - 1];
    var before := RunPass(init, lib, processor);
    RunPassShape(init, lib, processor);
    if i < |init| {
      assert init[i] == ps[i];
      TranslatedOnlyWhenAllSucceeded(init, lib, processor, i);
    } else {
      var p := ps[i];
      assert before.failure.None?;
      var ep := EntriesPass(p.request.entries, p.request.sourceLocale, p.request.targetLocale, processor);
      EntriesPassShape(p.request.entries, p.request.sourceLocale, p.request.targetLocale, processor);
      EntriesPassAllTranslated(p.request.entries, p.request.sourceLocale, p.request.targetLocale, processor);
    }
  }

  /** A pass without an exception marks every process that needed processing as translated. */
  lemma {:induction false} CompletedPassTranslatesAll(ps: seq<Process>, lib: Library, processor: Processor)
    requires RunPass(ps, lib, processor).failure.None?
    ensures |RunPass(ps, lib, processor).processes| == |ps|
    ensures forall i | 0 <= i < |ps| :: lib.requireProcessing(ps[i].request) ==> RunPass(ps, lib, processor).processes[i].translated
    decreases |ps|
  {
    RunPassShape(ps, lib, processor);
    if ps != [] {
      var init := ps[..|ps| - 1];
      CompletedPassTranslatesAll(init, lib, processor);
      assert forall i | 0 <= i < |init| :: init[i] == ps[i];
    }
  }

  /** An aborted pass has a process `k` at which it stopped: the processes before it had
    * their turns without an exception, the process itself needed processing and threw the
    * exception of the pass, and every process after it is left as it was. */
  lemma {:induction false} AbortedPassStops(ps: seq<Process>, lib: Library, processor: Processor) returns (k: nat)
    requires RunPass(ps, lib, processor).failure.Some?
    ensures k < |ps| && lib.requireProcessing(ps[k].request)
    ensures RunPass(ps[..k], lib, processor).failure.None?
    ensures ProcessPass(ps[k], lib, processor).failure == RunPass(ps, lib, processor).failure
    ensures RunPass(ps, lib, processor).processes ==
            RunPass(ps[..k], lib, processor).processes + [ProcessPass(ps[k], lib, processor).process] + ps[k + 1..]
    decreases |ps|
  {
    var init := ps[..|ps| - 1];
    var before := RunPass(init, lib, processor);
    if before.failure.Some? {
      k := AbortedPassStops(init, lib, processor);
      assert init[..k] == ps[..k] && init[k] == ps[k];
      SuffixOfInit(ps, k + 1);
    } else {
      k := |ps| - 1;
      assert ps[..k] == init;
      assert ps[k + 1..] == [];
    }
  }

  /** The number of entries translated by a completed pass is the number of entries of the
    * processes that needed processing. */
  lemma {:induction false} CompletedPassSuccesses(ps: seq<Process>, lib: Library, processor: Processor)
    requires RunPass(ps, lib, processor).failure.None?
    ensures RunPass(ps, lib, processor).successes == WorkedEntries(ps, lib)
    decreases |ps|
  {
    if ps != [] {
      var p := ps[|ps| - 1];
      CompletedPassSuccesses(ps[..|ps| - 1], lib, processor);
      EntriesPassShape(p.request.entries, p.request.sourceLocale, p.request.targetLocale, processor);
    }
  }

  /** The number of entries of the processes that need processing. */
  function WorkedEntries(ps: seq<Process>, lib: Library): nat
    decreases |ps|
  {
    if ps == [] then 0
    else WorkedEntries(ps[..|ps| - 1], lib)
         + (if lib.requireProcessing(ps[|ps| - 1].request) then |ps[|ps| - 1].request.entries| else 0)
  }

  /** With the Google processor, an entry that needs no translation leaves the pass unchanged. */
  lemma {:induction false} GoogleKeepsUntranslatedEntries(es: seq<Entry>, sl: Locale, tl: Locale,
                                                          http: string -> GoogleProcessor.HttpOutcome, now: nat)
    ensures var out := EntriesPass(es, sl, tl, GoogleProcessor.Translate(http, now)).entries;
            |out| == |es| && forall j | 0 <= j < |es| :: !es[j].requireTranslation ==> out[j] == es[j]
    decreases |es|
  {
    EntriesPassShape(es, sl, tl, GoogleProcessor.Translate(http, now));
    if es != [] {
      var init := es[..|es| - 1];
      GoogleKeepsUntranslatedEntries(init, sl, tl, http, now);
      assert forall j | 0 <= j < |init| :: init[j] == es[j];
    }
  }

  // ---------------------------------------------------------------------------------------
  // save
  // ---------------------------------------------------------------------------------------

  /** A document written back: the target file and its new text. */
  datatype Write = Write(target: TranslationFile, content: string)

  /** What saving does: the writes made in process order, and the exception that stopped it. */
  datatype Saving = Saving(writes: seq<Write>, failure: Option<TranslationException>)

  /** save over the processes in order: a translated process whose target has an open
    * document gets the rebuilt document text; the first exception stops the saving. */
  function SaveAll(ps: seq<Process>, lib: Library, hasDocument: TranslationFile -> bool): Saving
    decreases |ps|
  {
    if ps == [] then Saving([], None)
    else
      var before := SaveAll(ps[..|ps| - 1], lib, hasDocument);
      var p := ps[|ps| - 1];
      if before.failure.Some? || !p.translated || !hasDocument(p.request.target) then before
      else match lib.document(p.request)
        case Failure(x) => Saving(before.writes, Some(x))
        case Success(content) => Saving(before.writes + [Write(p.request.target, content)], None)
  }

  /** Every document written belongs to a translated process with an open document, and holds
    * the text the library rebuilt for it. */
  lemma {:induction false} SavesOnlyTranslated(ps: seq<Process>, lib: Library, hasDocument: TranslationFile -> bool)
    ensures forall w | w in SaveAll(ps, lib, hasDocument).writes ::
              exists i | 0 <= i < |ps| ::
                ps[i].translated && hasDocument(ps[i].request.target)
                && lib.document(ps[i].request).Success?
                && w == Write(ps[i].request.target, lib.document(ps[i].request).value)
    decreases |ps|
  {
    if ps != [] {
      var init := ps[..|ps| - 1];
      SavesOnlyTranslated(init, lib, hasDocument);
      forall w | w in SaveAll(init, lib, hasDocument).writes
        ensures exists i | 0 <= i < |ps| ::
                  ps[i].translated && hasDocument(ps[i].request.target)
                  && lib.document(ps[i].request).Success?
                  && w == Write(ps[i].request.target, lib.document(ps[i].request).value)
      {
        var i :| 0 <= i < |init| && init[i].translated && hasDocument(init[i].request.target)
                 && lib.document(init[i].request).Success?
                 && w == Write(init[i].request.target, lib.document(init[i].request).value);
        assert ps[i] == init[i];
      }
    }
  }

  /** Saving without an exception writes the document of every translated process that has an
    * open document, each once and in process order: write k is the rebuilt document of the k-th
    * such process. */
  lemma {:induction false} SavesEveryTranslated(ps: seq<Process>, lib: Library, hasDocument: TranslationFile -> bool)
    requires SaveAll(ps, lib, hasDocument).failure.None?
    ensures var todo := ToSave(ps, hasDocument);
            var writes := SaveAll(ps, lib, hasDocument).writes;
            |writes| == |todo|
            && forall k | 0 <= k < |todo| ::
                 lib.document(todo[k].request).Success?
                 && writes[k] == Write(todo[k].request.target, lib.document(todo[k].request).value)
    decreases |ps|
  {
    if ps != [] {
      SavesEveryTranslated(ps[..|ps| - 1], lib, hasDocument);
    }
  }

  /** The translated processes whose target has an open document, in process order. */
  function ToSave(ps: seq<Process>, hasDocument: TranslationFile -> bool): (r: seq<Process>)
    ensures forall k | 0 <= k < |r| :: r[k] in ps && r[k].translated && hasDocument(r[k].request.target)
    ensures forall p | p in ps && p.translated && hasDocument(p.request.target) :: p in r
    decreases |ps|
  {
    if ps == [] then []
    else
      var init := ps[..|ps| - 1];
      var p := ps[|ps| - 1];
      var r := ToSave(init, hasDocument) + (if p.translated && hasDocument(p.request.target) then [p] else []);
      assert forall q | q in init :: q in ps;
      assert forall q | q in ps :: q in init || q == p;
      r
  }

  /** When no process was translated, nothing is written. */
  lemma {:induction false} NothingTranslatedNothingSaved(ps: seq<Process>, lib: Library, hasDocument: TranslationFile -> bool)
    requires forall i | 0 <= i < |ps| :: !ps[i].translated
    ensures SaveAll(ps, lib, hasDocument) == Saving([], None)
    decreases |ps|
  {
    if ps != [] {
      var init := ps[..|ps| - 1];
      assert forall i | 0 <= i < |init| :: init[i] == ps[i];
      NothingTranslatedNothingSaved(init, lib, hasDocument);
    }
  }

  // ---------------------------------------------------------------------------------------
  // The service
  // ---------------------------------------------------------------------------------------

  /** What prepare leaves: for each process, a fresh request from the source to one selected
    * target file, which needs processing; every selected target that needs processing has
    * its process; and no target has two. */
  predicate Prepared(ps: seq<Process>, source: TranslationFile, selected: map<Locale, TranslationFile>,
                     lib: Library, readEntries: (TranslationFile, TranslationFile) -> seq<Entry>)
  {
    (forall i | 0 <= i < |ps| ::
       ps[i] == Process(RequestFor(source, ps[i].request.target, readEntries), false)
       && ps[i].request.target in selected.Values
       && lib.requireProcessing(ps[i].request))
    && (forall l | l in selected ::
          lib.requireProcessing(RequestFor(source, selected[l], readEntries))
          ==> exists i | 0 <= i < |ps| :: ps[i].request.target == selected[l])
    && (forall i, j | 0 <= i < j < |ps| :: ps[i].request.target != ps[j].request.target)
  }

  /** The loop of prepare, over the selection (a map keyed by locale) in map order. */
  method PrepareProcesses(source: TranslationFile, selected: map<Locale, TranslationFile>, lib: Library,
                          readEntries: (TranslationFile, TranslationFile) -> seq<Entry>)
    returns (prepared: seq<Process>)
    requires LocaleKeyed(selected)
    ensures Prepared(prepared, source, selected, lib, readEntries)
  {
    prepared := [];
    ghost var keys: seq<Locale> := [];
    var remaining := selected.Keys;
    while remaining != {}
      invariant remaining <= selected.Keys
      invariant PreparedOver(prepared, keys, selected.Keys - remaining, source, selected, lib, readEntries)
      decreases |remaining|
    {
      var l :| l in remaining;
      var request := RequestFor(source, selected[l], readEntries);
      var process := Process(request, false);
      PreparedStep(prepared, keys, selected.Keys - remaining, l, source, selected, lib, readEntries);
      if lib.requireProcessing(process.request) {
        prepared := prepared + [process];
        keys := keys + [l];
      }
      assert selected.Keys - (remaining - {l}) == (selected.Keys - remaining) + {l};
      remaining := remaining - {l};
    }
    assert selected.Keys - remaining == selected.Keys;
    PreparedOverAll(prepared, keys, source, selected, lib, readEntries);
  }

  /** The loop invariant of prepare: `ps` holds the processes for the selected locales in
    * `keys`, in that order, which are the ones among `done` that need processing. */
  ghost predicate PreparedOver(ps: seq<Process>, keys: seq<Locale>, done: set<Locale>, source: TranslationFile,
                               selected: map<Locale, TranslationFile>, lib: Library,
                               readEntries: (TranslationFile, TranslationFile) -> seq<Entry>)
  {
    |keys| == |ps|
    && (forall i | 0 <= i < |keys| :: keys[i] in selected && keys[i] in done)
    && (forall i | 0 <= i < |ps| ::
          keys[i] in selected
          && ps[i] == Process(RequestFor(source, selected[keys[i]], readEntries), false)
          && lib.requireProcessing(ps[i].request))
    && (forall l | l in selected && l in done ::
          lib.requireProcessing(RequestFor(source, selected[l], readEntries)) ==> l in keys)
    && (forall i, j | 0 <= i < j < |keys| :: keys[i] != keys[j])
  }

  /** One more selected locale looked at by prepare. */
  lemma PreparedStep(ps: seq<Process>, keys: seq<Locale>, done: set<Locale>, l: Locale, source: TranslationFile,
                     selected: map<Locale, TranslationFile>, lib: Library,
                     readEntries: (TranslationFile, TranslationFile) -> seq<Entry>)
    requires PreparedOver(ps, keys, done, source, selected, lib, readEntries)
    requires l in selected && l !in done
    ensures var r := RequestFor(source, selected[l], readEntries);
            if lib.requireProcessing(r)
            then PreparedOver(ps + [Process(r, false)], keys + [l], done + {l}, source, selected, lib, readEntries)
            else PreparedOver(ps, keys, done + {l}, source, selected, lib, readEntries)
  {
  }

  /** Once prepare has looked at every selected locale, the processes are as prepare leaves them. */
  lemma PreparedOverAll(ps: seq<Process>, keys: seq<Locale>, source: TranslationFile,
                        selected: map<Locale, TranslationFile>, lib: Library,
                        readEntries: (TranslationFile, TranslationFile) -> seq<Entry>)
    requires LocaleKeyed(selected)
    requires PreparedOver(ps, keys, selected.Keys, source, selected, lib, readEntries)
    ensures Prepared(ps, source, selected, lib, readEntries)
  {
    forall i, j | 0 <= i < j < |ps|
      ensures ps[i].request.target != ps[j].request.target
    {
      assert selected[keys[i]].locale == keys[i] && selected[keys[j]].locale == keys[j];
    }
    forall l | l in selected && lib.requireProcessing(RequestFor(source, selected[l], readEntries))
      ensures exists i | 0 <= i < |ps| :: ps[i].request.target == selected[l]
    {
      var i :| 0 <= i < |keys| && keys[i] == l;
      assert ps[i].request.target == selected[l];
    }
  }

  /** How a translation pass ended. */
  datatype Outcome =
    | NothingToTranslate                   // no entry needed translating; the processor was not called
    | Completed                            // every process had its turn
    | Aborted(error: TranslationException) // the first exception ended the pass

  /** The translation service of a project. */
  class RBTService {
    /** The translation processes of the last preparation. */
    var processes: seq<Process>
    /** The data model, once set. */
    var model: PropertiesModel?

    /** A service without a model. */
    constructor ()
      ensures processes == [] && model == null
    {
      processes := [];
      model := null;
    }

    /** prepare: one fresh process per selected target file, with a request from the source
      * file to that target, keeping only the processes that need processing. */
    method Prepare(lib: Library, readEntries: (TranslationFile, TranslationFile) -> seq<Entry>)
      requires model != null && model.Valid()
      modifies this
      ensures model == old(model)
      ensures Prepared(processes, model.sourceTranslation, model.targetTranslationSelected, lib, readEntries)
    {
      var prepared := PrepareProcesses(model.sourceTranslation, model.targetTranslationSelected, lib, readEntries);
      processes := prepared;
    }

    /** execute: when some entry needs translating, runs the pass over the processes (`total`
      * is the number of entries, `totalRemaining` the number needing translation, and
      * `remaining` drops by one per translated entry); otherwise calls no processor. */
    method Execute(lib: Library, processor: Processor)
      returns (outcome: Outcome, total: int, totalRemaining: int, remaining: int)
      modifies this
      ensures model == old(model)
      ensures total == TotalEntries(old(processes)) && totalRemaining == PendingCount(old(processes), lib)
      ensures totalRemaining == 0 ==> outcome == NothingToTranslate && processes == old(processes) && remaining == 0
      ensures totalRemaining != 0 ==>
                var pass := RunPass(old(processes), lib, processor);
                processes == pass.processes
                && remaining == totalRemaining - pass.successes
                && outcome == if pass.failure.None? then Completed else Aborted(pass.failure.value)
    {
      total, remaining := Totals(lib);
      totalRemaining := remaining;
      if remaining == 0 {
        return NothingToTranslate, total, totalRemaining, remaining;
      }
      var failure, successes := RunProcesses(lib, processor);
      remaining := remaining - successes;
      outcome := if failure.None? then Completed else Aborted(failure.value);
    }

    /** The main loop of execute: each process in turn, until the first exception, which
      * aborts the pass; returns that exception and the number of entries translated. */
    method RunProcesses(lib: Library, processor: Processor)
      returns (failure: Option<TranslationException>, successes: nat)
      modifies this
      ensures model == old(model)
      ensures RunPass(old(processes), lib, processor) == Pass(processes, failure, successes)
    {
      var ps := processes;
      successes := 0;
      var k := 0;
      while k < |ps|
        invariant unchanged(this)
        invariant 0 <= k <= |ps| == |processes|
        invariant RunPass(processes[..k], lib, processor) == Pass(ps[..k], None, successes)
        invariant ps[k..] == processes[k..]
      {
        assert ps[k] == processes[k] by { assert ps[k..][0] == ps[k]; }
        var turn := TakeTurn(ps[k], lib, processor);
        RunPassStep(processes, lib, processor, k, ps[..k], successes);
        successes := successes + turn.successes;
        ghost var before := ps;
        ps := ps[k := turn.process];
        SequenceStep(before, k, turn.process);
        assert ps[k + 1..] == processes[k + 1..] by { assert before[k..][1..] == before[k + 1..]; }
        if turn.failure.Some? {
          RunPassAfterFailure(processes, lib, processor, k + 1);
          processes := ps;
          return turn.failure, successes;
        }
        k := k + 1;
      }
      assert ps[..k] == ps && processes[..k] == processes;
      processes := ps;
      failure := None;
    }

    /** The opening loop of execute: the number of entries of all requests, and the number
      * of those needing translation. */
    method Totals(lib: Library) returns (total: int, pending: int)
      ensures total == TotalEntries(processes) && pending == PendingCount(processes, lib)
    {
      total, pending := 0, 0;
      var k := 0;
      while k < |processes|
        invariant 0 <= k <= |processes|
        invariant total == TotalEntries(processes[..k]) && pending == PendingCount(processes[..k], lib)
      {
        assert processes[..k + 1][..k] == processes[..k];
        total := total + |processes[k].request.entries|;
        pending := pending + lib.count(processes[k].request);
        k := k + 1;
      }
      assert processes[..k] == processes;
    }

    /** The turn of one process in execute: a process that needs processing has its entries
      * translated, and is marked translated once all of them were. */
    method TakeTurn(p: Process, lib: Library, processor: Processor) returns (turn: ProcessTurn)
      ensures turn == ProcessPass(p, lib, processor)
    {
      if !lib.requireProcessing(p.request) {
        return ProcessTurn(p, None, 0);
      }
      var failure, es, done := TranslateEntries(p.request, processor);
      var translated := if failure.None? then true else p.translated;
      turn := ProcessTurn(Process(p.request.(entries := es), translated), failure, done);
    }

    /** The inner loop of execute: the processor over the entries of a request, in order,
      * until the first exception. */
    method TranslateEntries(request: Request, processor: Processor)
      returns (failure: Option<TranslationException>, es: seq<Entry>, done: nat)
      ensures EntriesPass(request.entries, request.sourceLocale, request.targetLocale, processor) == EntryPass(es, failure, done)
    {
      var sl, tl := request.sourceLocale, request.targetLocale;
      es := request.entries;
      done := 0;
      var j := 0;
      while j < |es|
        invariant 0 <= j <= |es| == |request.entries|
        invariant EntriesPass(request.entries[..j], sl, tl, processor) == EntryPass(es[..j], None, done)
        invariant es[j..] == request.entries[j..]
      {
        assert es[j] == request.entries[j] && es[j + 1..] == request.entries[j + 1..] by {
          assert es[j..][0] == es[j] && es[j..][1..] == es[j + 1..];
        }
        EntriesPassStep(request.entries, sl, tl, processor, j, es[..j], done);
        var result := processor(sl, tl, es[j]);
        ghost var before := es;
        if result.Failure? {
          SequenceStep(before, j, es[j]);
          assert before[j := es[j]] == es;
          EntriesPassAfterFailure(request.entries, sl, tl, processor, j + 1);
          return Some(result.error), es, done;
        }
        es := es[j := result.value];
        SequenceStep(before, j, result.value);
        done := done + 1;
        j := j + 1;
      }
      assert es[..j] == es && request.entries[..j] == request.entries;
      failure := None;
    }

    /** save: writes back the documents of the translated processes, and stops at the first
      * exception. */
    method Save(lib: Library, hasDocument: TranslationFile -> bool)
      returns (writes: seq<Write>, failure: Option<TranslationException>)
      ensures Saving(writes, failure) == SaveAll(processes, lib, hasDocument)
    {
      writes := [];
      var i := 0;
      while i < |processes|
        invariant 0 <= i <= |processes|
        invariant Saving(writes, None) == SaveAll(processes[..i], lib, hasDocument)
      {
        assert processes[..i + 1][..i] == processes[..i];
        var p := processes[i];
        if p.translated && hasDocument(p.request.target) {
          var content := lib.document(p.request);
          if content.Failure? {
            SaveAllAfterFailure(processes, lib, hasDocument, i + 1);
            return writes, Some(content.error);
          }
          writes := writes + [Write(p.request.target, content.value)];
        }
        i := i + 1;
      }
      assert processes[..i] == processes;
      failure := None;
    }

    /** getTranslatedCount: the number of entries, over all processes, with a translation time
      * stamp. */
    method GetTranslatedCount() returns (count: int)
      ensures count == TranslatedCount(processes)
    {
      count := 0;
      var i := 0;
      while i < |processes|
        invariant 0 <= i <= |processes|
        invariant count == TranslatedCount(processes[..i])
      {
        assert processes[..i + 1][..i] == processes[..i];
        var entries := processes[i].request.entries;
        var j := 0;
        while j < |entries|
          invariant 0 <= j <= |entries|
          invariant count == TranslatedCount(processes[..i]) + Stamped(entries[..j])
        {
          assert entries[..j + 1][..j] == entries[..j];
          if entries[j].timestamp.Some? {
            count := count + 1;
          }
          j := j + 1;
        }
        assert entries[..j] == entries;
        i := i + 1;
      }
      assert processes[..i] == processes;
    }

    /** executeBackground: prepares the processes, runs the pass (an exception that aborts it
      * is swallowed), and then saves the documents all the same. */
    method ExecuteBackground(lib: Library, readEntries: (TranslationFile, TranslationFile) -> seq<Entry>,
                             processor: Processor, hasDocument: TranslationFile -> bool)
      returns (outcome: Outcome, translatedCount: Option<int>, saving: Saving)
      requires model != null && model.Valid()
      modifies this
      ensures model == old(model)
      ensures outcome.Aborted? <==> translatedCount.None?
      ensures translatedCount.Some? ==> translatedCount.value == TranslatedCount(processes)
      ensures saving == SaveAll(processes, lib, hasDocument)
      ensures exists ps :: Prepared(ps, model.sourceTranslation, model.targetTranslationSelected, lib, readEntries)
                && (PendingCount(ps, lib) == 0 ==> outcome == NothingToTranslate && processes == ps)
                && (PendingCount(ps, lib) != 0 ==>
                      var pass := RunPass(ps, lib, processor);
                      processes == pass.processes
                      && outcome == if pass.failure.None? then Completed else Aborted(pass.failure.value))
    {
      Prepare(lib, readEntries);
      ghost var ps := processes;
      var total, totalRemaining, remaining;
      outcome, total, totalRemaining, remaining := Execute(lib, processor);
      if outcome.Aborted? {
        translatedCount := None;
      } else {
        var count := GetTranslatedCount();
        translatedCount := Some(count);
      }
      var writes, failure := Save(lib, hasDocument);
      saving := Saving(writes, failure);
      assert Prepared(ps, model.sourceTranslation, model.targetTranslationSelected, lib, readEntries);
    }
  }

  /** Once saving a prefix of the processes has thrown, nothing more is written. */
  lemma {:induction false} SaveAllAfterFailure(ps: seq<Process>, lib: Library, hasDocument: TranslationFile -> bool, n: nat)
    requires n <= |ps| && SaveAll(ps[..n], lib, hasDocument).failure.Some?
    ensures SaveAll(ps, lib, hasDocument) == SaveAll(ps[..n], lib, hasDocument)
    decreases |ps| - n
  {
    if n < |ps| {
      assert ps[..n + 1][..n] == ps[..n];
      SaveAllAfterFailure(ps, lib, hasDocument, n + 1);
    } else {
      assert ps[..n] == ps;
    }
  }
}
