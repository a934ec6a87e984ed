/**
 * The two download listeners of background.js and the title table they share
 * (lines 3, 17-47 and 81-126).
 *
 * `onCreated` asks the page for its title; the answer arrives later and is
 * stored under the download id. `onDeterminingFilename` runs
 * `attemptRename`, which looks the id up, and either suggests a new name
 * (consuming the entry), or re-schedules itself, or after the last retry
 * keeps the browser's name. The model fixes the moment the asynchronous
 * answer arrives as a `Reply`: it is delivered just before lookup number
 * `before` (counting from 0), or after the last lookup when `before` is
 * larger than their number.
 */
module Downloads {
  import opened Wrappers
  import opened Cleaner
  import opened Domain
  import opened Naming

  type DownloadId = int

  /** Line 111: the highest `retryCount` that still schedules another attempt. */
  const MaxRetries: nat := 10

  /** Line 105: the only conflict action the extension asks for. */
  datatype ConflictAction = Uniquify

  /** The argument given to `suggest`: nothing (line 117), or a name (lines 103-106). */
  datatype Suggestion = KeepDefault | Rename(filename: string, conflictAction: ConflictAction)

  /** What one run of `attemptRename` ends with. */
  datatype Step = Suggest(suggestion: Suggestion) | Retry(nextRetry: nat)

  /** The fields of a browser `DownloadItem` the listeners read. */
  datatype DownloadItem = DownloadItem(id: DownloadId, url: string, filename: string)

  /** The answer to the title request of lines 27-44: `title` is `None` when no
      tab is active, the message fails, or the response carries no title. */
  datatype Reply = Reply(title: Option<string>, before: nat)

  /** What the retry loop produced: the title it renamed after (`None` when it
      kept the browser's name), how many lookups it made, and the table it
      left behind. */
  datatype Run = Run(used: Option<string>, lookups: nat, titles: map<DownloadId, string>)

  /** JavaScript truthiness of an optional string. */
  predicate Truthy(title: Option<string>) {
    title.Some? && title.value != ""
  }

  /** Every stored title is truthy: what the store step of lines 39-41 keeps true. */
  predicate AllTruthy(titles: map<DownloadId, string>) {
    forall id :: id in titles ==> titles[id] != ""
  }

  /** Line 91 with the test of line 93: the stored title, when truthy. In a
      table that only holds truthy titles, the test is just presence. */
  function Lookup(titles: map<DownloadId, string>, id: DownloadId): (t: Option<string>)
    ensures t.Some? ==> id in titles && titles[id] == t.value && Truthy(t)
    ensures AllTruthy(titles) ==> (t.Some? <==> id in titles)
  {
    if id in titles && titles[id] != "" then Some(titles[id]) else None
  }

  /** Lines 39-41: only a truthy title is stored; the lookup then finds it,
      and every other entry is left as it was. */
  function Stored(titles: map<DownloadId, string>, id: DownloadId, title: Option<string>): (r: map<DownloadId, string>)
    ensures Lookup(r, id) == (if Truthy(title) then title else Lookup(titles, id))
    ensures forall k :: k != id ==> (k in r <==> k in titles) && (k in r ==> r[k] == titles[k])
    ensures AllTruthy(titles) ==> AllTruthy(r)
  {
    if Truthy(title) then titles[id := title.value] else titles
  }

  /** The `suggest` argument of a run: lines 94-106 when a title was used,
      line 117 otherwise. */
  function SuggestionOf(used: Option<string>, item: DownloadItem, nfc: string -> string): (r: Suggestion)
    ensures r.KeepDefault? <==> used.None?
    ensures used.Some? ==> r.conflictAction == Uniquify
                           && Extension(r.filename) == Extension(item.filename)
                           && |r.filename| > |Extension(item.filename)|
                           && r.filename[..|r.filename| - |Extension(item.filename)| - 1] == CleanFilename(used, nfc)
  {
    match used
    case Some(title) => Rename(NewFilename(title, item.filename, nfc), Uniquify)
    case None => KeepDefault
  }

  /** The table lookup `k` reads: the reply is stored just before lookup `reply.before`. */
  function Delivered(titles: map<DownloadId, string>, id: DownloadId, reply: Reply, k: nat): map<DownloadId, string> {
    if k == reply.before then Stored(titles, id, reply.title) else titles
  }

  /** The table after the run, once a reply that comes later than every
      lookup has been stored too. */
  function Settled(run: Run, id: DownloadId, reply: Reply): map<DownloadId, string> {
    if reply.before < run.lookups then run.titles else Stored(run.titles, id, reply.title)
  }

  /** `attemptRename(retryCount)` and the retries it schedules (lines 90-119),
      as a function of the table it starts from. It makes at most
      `MaxRetries + 1` lookups, and a run that uses a title used a truthy one. */
  function RunFrom(titles: map<DownloadId, string>, item: DownloadItem, reply: Reply,
                   retryCount: nat): (run: Run)
    requires retryCount <= MaxRetries
    ensures retryCount < run.lookups <= MaxRetries + 1
    ensures run.used.Some? ==> run.used.value != ""
    decreases MaxRetries - retryCount
  {
    var seen := Delivered(titles, item.id, reply, retryCount);
    match Lookup(seen, item.id)
    case Some(title) => Run(Some(title), retryCount + 1, seen - {item.id})
    case None =>
      if retryCount < MaxRetries then RunFrom(seen, item, reply, retryCount + 1)
      else Run(None, retryCount + 1, seen)
  }

  /** The table lookup `k` of a run that started at lookup `from` reads, as
      long as nothing has been consumed yet. */
  function SeenAt(titles: map<DownloadId, string>, id: DownloadId, reply: Reply, from: nat, k: nat): map<DownloadId, string> {
    if from <= reply.before <= k then Stored(titles, id, reply.title) else titles
  }

  lemma SeenAtShift(titles: map<DownloadId, string>, id: DownloadId, reply: Reply, from: nat, k: nat)
    requires from < k
    ensures SeenAt(Delivered(titles, id, reply, from), id, reply, from + 1, k) == SeenAt(titles, id, reply, from, k)
  {
  }

  /** A lookup that finds nothing leaves the table as it was. */
  lemma MissKeepsTable(titles: map<DownloadId, string>, id: DownloadId, reply: Reply, k: nat)
    requires Lookup(Delivered(titles, id, reply, k), id).None?
    ensures Delivered(titles, id, reply, k) == titles
  {
  }

  /** The run renames exactly when one of its lookups finds a title, and then
      with the first title found; every earlier lookup found nothing. Renaming
      removes exactly that download's entry; keeping the default name happens
      only after the last retry and changes nothing. */
  lemma {:induction false} RunUsesFirstTitle(titles: map<DownloadId, string>, item: DownloadItem,
                                             reply: Reply, from: nat)
    requires from <= MaxRetries
    ensures var run := RunFrom(titles, item, reply, from);
      var last := Lookup(SeenAt(titles, item.id, reply, from, run.lookups - 1), item.id);
      (forall j :: from <= j < run.lookups - 1 ==> Lookup(SeenAt(titles, item.id, reply, from, j), item.id).None?) &&
      run.used == last &&
      (last.Some? ==> run.titles == titles - {item.id}) &&
      (last.None? ==> run.lookups == MaxRetries + 1 && run.titles == titles)
    decreases MaxRetries - from
  {
    var id := item.id;
    var seen := Delivered(titles, id, reply, from);
    assert SeenAt(titles, id, reply, from, from) == seen;
    match Lookup(seen, id)
    case Some(title) =>
      assert RunFrom(titles, item, reply, from) == Run(Some(title), from + 1, seen - {id});
      StoredThenRemoved(titles, id, reply.title);
    case None =>
      MissKeepsTable(titles, id, reply, from);
      if from < MaxRetries {
        var run := RunFrom(seen, item, reply, from + 1);
        assert RunFrom(titles, item, reply, from) == run;
        RunUsesFirstTitle(seen, item, reply, from + 1);
        SeenAtShift(titles, id, reply, from, run.lookups - 1);
        forall j | from <= j < run.lookups - 1
          ensures Lookup(SeenAt(titles, id, reply, from, j), id).None?
        {
          if j > from {
            SeenAtShift(titles, id, reply, from, j);
          }
        }
      } else {
        assert RunFrom(titles, item, reply, from) == Run(None, from + 1, seen);
      }
  }

  /** Storing a title and then consuming it leaves the rest of the table as it was. */
  lemma StoredThenRemoved(titles: map<DownloadId, string>, id: DownloadId, title: Option<string>)
    ensures Stored(titles, id, title) - {id} == titles - {id}
  {
    var m := Stored(titles, id, title);
    assert forall k :: k in m - {id} <==> k in titles - {id};
  }

  /** Keeping the browser's name happens exactly when all `MaxRetries + 1`
      lookups find no title. */
  lemma KeepDefaultIffNoTitle(titles: map<DownloadId, string>, item: DownloadItem, reply: Reply)
    ensures RunFrom(titles, item, reply, 0).used == None <==>
      forall j :: 0 <= j <= MaxRetries ==> Lookup(SeenAt(titles, item.id, reply, 0, j), item.id).None?
  {
    RunUsesFirstTitle(titles, item, reply, 0);
  }

  /** A truthy title that arrives while the retries are still running is used:
      the download is renamed after it at the next lookup, and the entry is
      consumed. */
  lemma {:induction false} TimelyReplyRenames(titles: map<DownloadId, string>, item: DownloadItem,
                                              reply: Reply, from: nat)
    requires Lookup(titles, item.id).None?
    requires from <= reply.before <= MaxRetries && Truthy(reply.title)
    ensures RunFrom(titles, item, reply, from) == Run(reply.title, reply.before + 1, titles - {item.id})
    decreases reply.before - from
  {
    if from < reply.before {
      TimelyReplyRenames(titles, item, reply, from + 1);
    } else {
      StoredThenRemoved(titles, item.id, reply.title);
    }
  }

  /** Without a usable title in time, every retry is spent and the name is
      left to the browser, with the table unchanged. */
  lemma {:induction false} NoTitleKeepsDefault(titles: map<DownloadId, string>, item: DownloadItem,
                                               reply: Reply, from: nat)
    requires from <= MaxRetries && Lookup(titles, item.id).None?
    requires reply.before < from || reply.before > MaxRetries || !Truthy(reply.title)
    ensures RunFrom(titles, item, reply, from) == Run(None, MaxRetries + 1, titles)
    decreases MaxRetries - from
  {
    if from < MaxRetries {
      NoTitleKeepsDefault(titles, item, reply, from + 1);
    }
  }

  /** A title that arrives after the last retry is still stored, and nothing
      ever removes it: the entry outlives its download. */
  lemma LateTitleLingers(titles: map<DownloadId, string>, item: DownloadItem, reply: Reply)
    requires Lookup(titles, item.id).None?
    requires reply.before > MaxRetries && Truthy(reply.title)
    ensures var run := RunFrom(titles, item, reply, 0);
      run.used == None && Settled(run, item.id, reply) == titles[item.id := reply.title.value]
  {
    NoTitleKeepsDefault(titles, item, reply, 0);
  }

  /**
   * The background page's state: the `lastTitles` table, with the browser
   * services it calls as constants.
   */
  class Renamer {
    /** Line 3: the titles fetched so far, by download id. */
    var lastTitles: map<DownloadId, string>
    /** `new URL(url).hostname`, `None` when the URL does not parse. */
    const hostOf: string -> Option<string>
    /** `String.prototype.normalize('NFC')`. */
    const nfc: string -> string

    /** Only truthy titles are ever stored. */
    ghost predicate Valid()
      reads this
    {
      AllTruthy(lastTitles)
    }

    constructor (hostOf: string -> Option<string>, nfc: string -> string)
      ensures Valid() && lastTitles == map[]
      ensures this.hostOf == hostOf && this.nfc == nfc
    {
      lastTitles := map[];
      this.hostOf := hostOf;
      this.nfc := nfc;
    }

    /** Lines 33-43: the response callback stores a truthy title under the
        download id and ignores anything else. */
    method ReceiveTitle(id: DownloadId, title: Option<string>)
      requires Valid()
      modifies this
      ensures Valid()
      ensures lastTitles == Stored(old(lastTitles), id, title)
    {
      if title.Some? && title.value != "" {
        lastTitles := lastTitles[id := title.value];
      }
    }

    /** Lines 90-119: one run of `attemptRename(retryCount)`. */
    method AttemptRename(item: DownloadItem, retryCount: nat) returns (step: Step)
      requires Valid()
      modifies this
      ensures Valid()
      ensures match Lookup(old(lastTitles), item.id)
        case Some(title) =>
          step == Suggest(Rename(NewFilename(title, item.filename, nfc), Uniquify))
          && lastTitles == old(lastTitles) - {item.id}
        case None =>
          lastTitles == old(lastTitles)
          && step == (if retryCount < MaxRetries then Retry(retryCount + 1) else Suggest(KeepDefault))
    {
      if item.id in lastTitles && lastTitles[item.id] != "" {
        var rawTitle := lastTitles[item.id];
        var extension := Extension(item.filename);
        var newFilename := CleanFilename(Some(rawTitle), nfc) + "." + extension;
        step := Suggest(Rename(newFilename, Uniquify));
        lastTitles := lastTitles - {item.id};
      } else if retryCount < MaxRetries {
        step := Retry(retryCount + 1);
      } else {
        step := Suggest(KeepDefault);
      }
    }

    /** Lines 81-126 for one download, with its title reply delivered as
        `reply` says. Downloads from other sites are left to the browser
        (`false`, no `suggest` call, no state change); for the target site
        `suggest` is called exactly once, after the lookups `RunFrom`
        describes, and the table ends as `Settled` says. */
    method Download(item: DownloadItem, reply: Reply) returns (handled: bool, calls: seq<Suggestion>, lookups: nat)
      requires Valid()
      modifies this
      ensures Valid()
      ensures handled == CheckDomain(item.url, hostOf)
      ensures !handled ==> calls == [] && lookups == 0 && lastTitles == old(lastTitles)
      ensures handled ==> var run := RunFrom(old(lastTitles), item, reply, 0);
        calls == [SuggestionOf(run.used, item, nfc)] && lookups == run.lookups && lastTitles == Settled(run, item.id, reply)
    {
      handled := CheckDomain(item.url, hostOf);
      calls := [];
      lookups := 0;
      if !handled {
        return;
      }
      ghost var expected := RunFrom(lastTitles, item, reply, 0);
      var retryCount := 0;
      while true
        invariant retryCount <= MaxRetries
        invariant Valid()
        invariant RunFrom(lastTitles, item, reply, retryCount) == expected
        decreases MaxRetries - retryCount
      {
        if retryCount == reply.before {
          ReceiveTitle(item.id, reply.title);
        }
        var step := AttemptRename(item, retryCount);
        match step
        case Suggest(s) =>
          calls := [s];
          lookups := retryCount + 1;
          break;
        case Retry(next) =>
          retryCount := next;
      }
      if reply.before >= lookups {
        ReceiveTitle(item.id, reply.title);
      }
    }
  }
}
