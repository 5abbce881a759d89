/**
  The scheduler's rules as functions of the disk (src/monitor.cpp): what one
  claim of a ready entry does, what `processJob` does to a claimed job, what the
  single-shot `process()` does to a whole listing, how a worker leaves its
  wait, and how a sidecar is read. Every environment choice (whether a rename
  or a write goes through) is a boolean in an outcome record; a choice only
  takes effect where the operation is possible at all.
 */
module MonitorSpec {
  import opened Options
  import opened Text
  import opened Fs
  import opened Runner

  // ---------------------------------------------------------------- sidecars

  /** The lines `std::getline` yields: pieces between newlines; a final newline opens no further line. */
  function Lines(text: string): seq<string>
    decreases |text|
  {
    if text == [] then []
    else
      var line := Span(text, LineChars);
      if |line| == |text| then [line] else [line] + Lines(text[|line| + 1..])
  }

  predicate IsEmailLine(line: string) { StartsWith(line, EMAIL_KEY) }

  /** The text after `email=` on the first line that starts with it, or "" when none does. */
  function FirstEmail(lines: seq<string>): (e: string)
    ensures (forall i :: 0 <= i < |lines| ==> !IsEmailLine(lines[i])) ==> e == ""
    ensures forall k :: (0 <= k < |lines| && IsEmailLine(lines[k])
      && (forall j :: 0 <= j < k ==> !IsEmailLine(lines[j]))) ==> e == lines[k][|EMAIL_KEY|..]
    decreases |lines|
  {
    if lines == [] then ""
    else if IsEmailLine(lines[0]) then lines[0][|EMAIL_KEY|..]
    else
      var e := FirstEmail(lines[1..]);
      assert forall k :: 1 <= k < |lines| ==> lines[k] == lines[1..][k - 1];
      e
  }

  /** `readEmailFromMeta` on a sidecar whose text is `text`. */
  function EmailIn(text: string): string {
    FirstEmail(Lines(text))
  }

  /** The length of the line that starts `s` is where its first newline is, or all of `s`. */
  lemma LineLength(s: string, k: nat)
    requires k <= |s|
    requires forall j :: 0 <= j < k ==> s[j] != '\n'
    requires k == |s| || s[k] == '\n'
    ensures |Span(s, LineChars)| == k
  {
    var t := Span(s, LineChars);
    assert |t| >= k by {
      assert |t| < k ==> InClass(s[|t|], LineChars);
    }
    assert |t| <= k by {
      assert |t| > k ==> t[k] == s[k] && InClass(t[k], LineChars);
    }
  }

  /** `readEmailFromMeta(path)`: "" when the sidecar is missing or unreadable. */
  function SidecarEmail(d: Disk, p: Path): string {
    match d.Content(p)
    case None => ""
    case Some(text) => EmailIn(text)
  }

  /** The line that starts at `pos` ends at the next newline, and the lines after it start behind that newline. */
  lemma LinesAt(text: string, pos: nat, end: nat)
    requires pos < |text| && pos <= end <= |text|
    requires forall j :: pos <= j < end ==> text[j] != '\n'
    requires end == |text| || text[end] == '\n'
    ensures Lines(text[pos..]) == [text[pos..end]] + Lines(if end + 1 <= |text| then text[end + 1..] else [])
  {
    var rest := text[pos..];
    LineLength(rest, end - pos);
    assert Span(rest, LineChars) == text[pos..end];
    if end < |text| {
      assert rest[end - pos + 1..] == text[end + 1..];
    }
  }

  /** What the getline loop still has to find once it has read up to `pos`. */
  function EmailFrom(text: string, pos: nat): string {
    if pos <= |text| then FirstEmail(Lines(text[pos..])) else ""
  }

  /** One `getline` yielding `line`: it either is the answer or passes the search on to `next`. */
  lemma EmailFromStep(text: string, pos: nat, line: string, next: nat)
    requires pos < |text|
    requires Lines(text[pos..]) == [line] + Lines(if next <= |text| then text[next..] else [])
    ensures IsEmailLine(line) ==> EmailFrom(text, pos) == line[|EMAIL_KEY|..]
    ensures !IsEmailLine(line) ==> EmailFrom(text, pos) == EmailFrom(text, next)
  {
    var rest := Lines(if next <= |text| then text[next..] else []);
    assert ([line] + rest)[1..] == rest;
  }

  // ------------------------------------------------------------ the claim step

  /** The two renames of one claim: the job's text, then its sidecar when there is one. */
  datatype ClaimOutcome = ClaimOutcome(textMoved: bool, metaMoved: bool)

  /** A listed name the scanners act on: a regular file of the ready directory with extension `.txt`. */
  predicate IsReadyJob(d: Disk, name: string) {
    IsTxt(name) && d.IsRegular(Path(Ready, name))
  }

  /**
    One entry of a ready-directory scan: move `ready/<name>` to `processing/`,
    then its sidecar if it exists, and report the job id only when every rename
    of the block went through. A failed text rename changes nothing; a failed
    sidecar rename leaves the text claimed with no id reported.
   */
  function ClaimEntry(d: Disk, name: string, o: ClaimOutcome): (r: (Disk, Option<string>))
  {
    if !IsReadyJob(d, name) then (d, None)
    else
      var id := Stem(name);
      var (d1, moved) := TryRename(d, Path(Ready, name), Path(Processing, name), o.textMoved);
      if !moved then (d, None)
      else
        var meta := Path(Ready, MetaName(id));
        if meta !in d1.files then (d1, Some(id))
        else
          var (d2, metaMoved) := TryRename(d1, meta, Path(Processing, MetaName(id)), o.metaMoved);
          if metaMoved then (d2, Some(id)) else (d1, None)
  }

  function OptionToSeq<T>(o: Option<T>): seq<T> {
    if o.Some? then [o.value] else []
  }

  /** The entries of a listing, claimed in listing order; the ids are those to enqueue. */
  function ClaimAll(d: Disk, listing: seq<string>, os: seq<ClaimOutcome>): (r: (Disk, seq<string>))
    requires |os| == |listing|
    decreases |listing|
  {
    if listing == [] then (d, [])
    else
      var (d1, claimed) := ClaimEntry(d, listing[0], os[0]);
      var (d2, ids) := ClaimAll(d1, listing[1..], os[1..]);
      (d2, OptionToSeq(claimed) + ids)
  }

  /** One pass of `monitorDirectory`: a ready directory that cannot be listed yields nothing. */
  function ScanReady(d: Disk, listing: seq<string>, os: seq<ClaimOutcome>): (Disk, seq<string>)
    requires |os| == |listing|
  {
    if Ready !in d.dirs then (d, []) else ClaimAll(d, listing, os)
  }

  lemma ClaimEntrySkips(d: Disk, name: string, o: ClaimOutcome)
    requires !IsReadyJob(d, name)
    ensures ClaimEntry(d, name, o) == (d, None)
  {
  }

  /** A job id is reported exactly when the text rename and, if a sidecar exists, the sidecar rename both went through. */
  lemma ClaimEntryReports(d: Disk, name: string, o: ClaimOutcome)
    requires IsReadyJob(d, name)
    ensures var meta := Path(Ready, MetaName(Stem(name)));
      ClaimEntry(d, name, o).1.Some?
      <==> (&& o.textMoved && Processing in d.dirs
            && (meta in d.files ==> o.metaMoved))
    ensures ClaimEntry(d, name, o).1.Some? ==> ClaimEntry(d, name, o).1.value == Stem(name)
  {
    var id := Stem(name);
    MetaNameNotTxt(id);
    assert Path(Ready, MetaName(id)) != Path(Ready, name);
  }

  /**
    After a claim the job's text is in exactly one place: still in the ready
    directory with nothing changed, or in the processing directory and gone
    from ready; and a reported id has taken its sidecar along.
   */
  lemma ClaimEntryMoves(d: Disk, name: string, o: ClaimOutcome)
    requires IsReadyJob(d, name)
    ensures var (r, claimed) := ClaimEntry(d, name, o);
      || (r == d && claimed.None?)
      || (&& Path(Ready, name) !in r.files
          && r.files[Path(Processing, name)] == d.files[Path(Ready, name)])
    ensures var (r, claimed) := ClaimEntry(d, name, o);
      var meta := Path(Ready, MetaName(Stem(name)));
      claimed.Some? && meta in d.files ==>
        meta !in r.files && r.files[Path(Processing, MetaName(Stem(name)))] == d.files[meta]
  {
    var id := Stem(name);
    MetaNameNotTxt(id);
    assert Path(Ready, MetaName(id)) != Path(Ready, name);
    assert Path(Processing, MetaName(id)) != Path(Processing, name);
  }

  /**
    The code's handling of a sidecar that will not move: the text has already
    gone to processing, but the job is not enqueued, so no worker will take it.
   */
  lemma ClaimEntryStrandsText(d: Disk, name: string, o: ClaimOutcome)
    requires IsReadyJob(d, name) && Processing in d.dirs && o.textMoved && !o.metaMoved
    requires Path(Ready, MetaName(Stem(name))) in d.files
    ensures ClaimEntry(d, name, o).1 == None
    ensures ClaimEntry(d, name, o).0.files[Path(Processing, name)] == d.files[Path(Ready, name)]
    ensures Path(Ready, name) !in ClaimEntry(d, name, o).0.files
  {
    MetaNameNotTxt(Stem(name));
    assert Path(Ready, MetaName(Stem(name))) != Path(Ready, name);
  }

  /** `a` is `b` with some elements left out, order kept. */
  predicate IsSubsequence<T(==)>(a: seq<T>, b: seq<T>)
    decreases |b|
  {
    a == [] || (b != [] && ((a[0] == b[0] && IsSubsequence(a[1..], b[1..])) || IsSubsequence(a, b[1..])))
  }

  /** The stems of the `.txt` names of a listing, in listing order. */
  function TxtStems(listing: seq<string>): seq<string>
    decreases |listing|
  {
    if listing == [] then []
    else if IsTxt(listing[0]) then [Stem(listing[0])] + TxtStems(listing[1..])
    else TxtStems(listing[1..])
  }

  /** A scan enqueues ids in listing order, each the stem of a listed `.txt` name. */
  lemma {:induction false} ClaimAllInListingOrder(d: Disk, listing: seq<string>, os: seq<ClaimOutcome>)
    requires |os| == |listing|
    ensures IsSubsequence(ClaimAll(d, listing, os).1, TxtStems(listing))
    decreases |listing|
  {
    if listing != [] {
      var (d1, claimed) := ClaimEntry(d, listing[0], os[0]);
      ClaimAllInListingOrder(d1, listing[1..], os[1..]);
      var ids := ClaimAll(d1, listing[1..], os[1..]).1;
      if claimed.Some? {
        ClaimEntryReports(d, listing[0], os[0]);
        assert ClaimAll(d, listing, os).1 == [claimed.value] + ids;
        assert ([claimed.value] + ids)[1..] == ids;
      } else {
        assert ClaimAll(d, listing, os).1 == ids;
        if IsTxt(listing[0]) {
          SubsequenceOfLonger(ids, TxtStems(listing[1..]), Stem(listing[0]));
        }
      }
    }
  }

  lemma SubsequenceOfLonger<T>(a: seq<T>, b: seq<T>, x: T)
    requires IsSubsequence(a, b)
    ensures IsSubsequence(a, [x] + b)
  {
    assert ([x] + b)[1..] == b;
  }

  /** A scan creates no entry outside `processing` and removes none from it. */
  lemma {:induction false} ClaimAllKeepsProcessing(d: Disk, listing: seq<string>, os: seq<ClaimOutcome>)
    requires |os| == |listing|
    ensures var r := ClaimAll(d, listing, os).0;
      && r.Within({Writing, Output, Failed}) == d.Within({Writing, Output, Failed})
      && (forall p :: p in d.files && p.dir == Processing ==> p in r.files)
      && r.dirs == d.dirs
    decreases |listing|
  {
    if listing != [] {
      var name := listing[0];
      var d1 := ClaimEntry(d, name, os[0]).0;
      if IsReadyJob(d, name) {
        var id := Stem(name);
        var ds := {Writing, Output, Failed};
        var t := TryRename(d, Path(Ready, name), Path(Processing, name), os[0].textMoved).0;
        if t != d {
          RenamedOutside(d, Path(Ready, name), Path(Processing, name), ds);
          var meta := Path(Ready, MetaName(id));
          if meta in t.files && os[0].metaMoved {
            RenamedOutside(t, meta, Path(Processing, MetaName(id)), ds);
          }
        }
      }
      ClaimAllKeepsProcessing(d1, listing[1..], os[1..]);
    }
  }

  /** Every id a scan enqueues has its text in the processing directory when the scan ends. */
  lemma {:induction false} ClaimAllClaimed(d: Disk, listing: seq<string>, os: seq<ClaimOutcome>)
    requires |os| == |listing|
    ensures forall id :: id in ClaimAll(d, listing, os).1 ==>
      Path(Processing, TxtName(id)) in ClaimAll(d, listing, os).0.files
    decreases |listing|
  {
    if listing != [] {
      var name := listing[0];
      var (d1, claimed) := ClaimEntry(d, name, os[0]);
      ClaimAllClaimed(d1, listing[1..], os[1..]);
      ClaimAllKeepsProcessing(d1, listing[1..], os[1..]);
      if claimed.Some? {
        ClaimEntryReports(d, name, os[0]);
        ClaimEntryMoves(d, name, os[0]);
        assert TxtName(Stem(name)) == name;
      }
    }
  }

  /** Claiming one more entry at the end of a listing: what a left-to-right loop does. */
  lemma {:induction false} ClaimAllSnoc(d: Disk, listing: seq<string>, os: seq<ClaimOutcome>, name: string, o: ClaimOutcome)
    requires |os| == |listing|
    ensures ClaimAll(d, listing + [name], os + [o]).0 == ClaimEntry(ClaimAll(d, listing, os).0, name, o).0
    ensures ClaimAll(d, listing + [name], os + [o]).1
      == ClaimAll(d, listing, os).1 + OptionToSeq(ClaimEntry(ClaimAll(d, listing, os).0, name, o).1)
    decreases |listing|
  {
    if listing == [] {
      assert listing + [name] == [name] && os + [o] == [o];
      assert [name][1..] == [] && [o][1..] == [];
      var x := OptionToSeq(ClaimEntry(d, name, o).1);
      assert x + [] == x && [] + x == x;
    } else {
      assert (listing + [name])[1..] == listing[1..] + [name];
      assert (os + [o])[1..] == os[1..] + [o];
      var (e, c) := ClaimEntry(d, listing[0], os[0]);
      ClaimAllSnoc(e, listing[1..], os[1..], name, o);
      var (d1, rest) := ClaimAll(e, listing[1..], os[1..]);
      var x := OptionToSeq(ClaimEntry(d1, name, o).1);
      assert OptionToSeq(c) + (rest + x) == (OptionToSeq(c) + rest) + x;
    }
  }

  /** `findJobs()`: the stems of the ready jobs of a listing, in listing order. */
  function ReadyStems(d: Disk, listing: seq<string>): seq<string>
    decreases |listing|
  {
    if listing == [] then []
    else (if IsReadyJob(d, listing[0]) then [Stem(listing[0])] else []) + ReadyStems(d, listing[1..])
  }

  function FindJobs(d: Disk, listing: seq<string>): seq<string> {
    if Ready !in d.dirs then [] else ReadyStems(d, listing)
  }

  lemma {:induction false} ReadyStemsSnoc(d: Disk, listing: seq<string>, name: string)
    ensures ReadyStems(d, listing + [name])
      == ReadyStems(d, listing) + (if IsReadyJob(d, name) then [Stem(name)] else [])
    decreases |listing|
  {
    if listing == [] {
      assert [] + [name] == [name];
    } else {
      assert (listing + [name])[1..] == listing[1..] + [name];
      ReadyStemsSnoc(d, listing[1..], name);
    }
  }

  lemma {:induction false} ReadyStemsAgree(d: Disk, e: Disk, listing: seq<string>)
    requires forall k :: 0 <= k < |listing| ==> IsReadyJob(d, listing[k]) == IsReadyJob(e, listing[k])
    ensures ReadyStems(d, listing) == ReadyStems(e, listing)
    decreases |listing|
  {
    if listing != [] {
      assert forall k :: 1 <= k < |listing| ==> listing[1..][k - 1] == listing[k];
      ReadyStemsAgree(d, e, listing[1..]);
    }
  }

  /**
    `findJobs()` lists exactly the ids the next scan enqueues when no rename
    fails (and the processing directory exists), for a listing that names
    each entry once.
   */
  lemma {:induction false} ScanEnqueuesFoundJobs(d: Disk, listing: seq<string>, os: seq<ClaimOutcome>)
    requires |os| == |listing| && Processing in d.dirs
    requires forall k :: 0 <= k < |os| ==> os[k] == ClaimOutcome(true, true)
    requires forall j, k :: 0 <= j < k < |listing| ==> listing[j] != listing[k]
    ensures ClaimAll(d, listing, os).1 == ReadyStems(d, listing)
    decreases |listing|
  {
    if listing != [] {
      var name := listing[0];
      var (d1, claimed) := ClaimEntry(d, name, os[0]);
      forall k | 0 <= k < |listing[1..]|
        ensures IsReadyJob(d1, listing[1..][k]) == IsReadyJob(d, listing[1..][k])
      {
        var x := listing[1..][k];
        assert x == listing[k + 1] && x != name;
        if IsReadyJob(d, name) && IsTxt(x) {
          MetaNameNotTxt(Stem(name));
          assert x != MetaName(Stem(name));
        }
      }
      ReadyStemsAgree(d1, d, listing[1..]);
      assert forall k :: 0 <= k < |os[1..]| ==> os[1..][k] == os[k + 1];
      assert forall j, k :: 0 <= j < k < |listing[1..]| ==> listing[1..][j] == listing[j + 1] && listing[1..][k] == listing[k + 1];
      ScanEnqueuesFoundJobs(d1, listing[1..], os[1..]);
      if IsReadyJob(d, name) {
        ClaimEntryReports(d, name, os[0]);
      }
    }
  }

  // ---------------------------------------------------------------- processJob

  /** The environment's part in `processJob`: whether the output file opens, and whether the move to `failed/` goes through. */
  datatype JobOutcome = JobOutcome(outputWritten: bool, movedToFailed: bool)

  function ProcessingText(id: string): Path { Path(Processing, TxtName(id)) }
  function ProcessingMeta(id: string): Path { Path(Processing, MetaName(id)) }
  function OutputText(id: string): Path { Path(Output, TxtName(id)) }
  function FailedText(id: string): Path { Path(Failed, TxtName(id)) }

  /** The failure path: move the text to `failed/`, else delete it; the sidecar is removed either way. */
  function FailJob(d: Disk, id: string, movedToFailed: bool): Disk {
    var (d1, moved) := TryRename(d, ProcessingText(id), FailedText(id), movedToFailed);
    if moved then
      (if ProcessingMeta(id) in d1.files then d1.Removed(ProcessingMeta(id)) else d1)
    else
      d.Removed(ProcessingText(id)).Removed(ProcessingMeta(id))
  }

  /** `processJob(id)`: the new disk, and whether the job completed. */
  function ProcessJob(d: Disk, llm: Llm, id: string, o: JobOutcome): (Disk, bool) {
    match d.Content(ProcessingText(id))
    case None => (FailJob(d, id, o.movedToFailed), false)
    case Some(content) =>
      var result := Inference(llm, content);
      if result == "" then (FailJob(d, id, o.movedToFailed), false)
      else
        var (d1, written) := TryWrite(d, OutputText(id), result, o.outputWritten);
        if !written then (FailJob(d, id, o.movedToFailed), false)
        else
          var d2 := d1.Removed(ProcessingText(id));
          (if ProcessingMeta(id) in d2.files then d2.Removed(ProcessingMeta(id)) else d2, true)
  }

  /** The job ran: its text was readable, the answer non-empty and the output file writable. */
  predicate JobSucceeds(d: Disk, llm: Llm, id: string, o: JobOutcome) {
    && d.IsRegular(ProcessingText(id))
    && Inference(llm, d.files[ProcessingText(id)].text) != ""
    && o.outputWritten && d.CanWrite(OutputText(id))
  }

  lemma ProcessingPathsDistinct(id: string)
    ensures ProcessingText(id) != ProcessingMeta(id)
  {
    MetaNameNotTxt(id);
    TxtNameIsTxt(id);
  }

  lemma TxtNameIsTxt(id: string)
    ensures EndsWith(TxtName(id), ".txt")
  {
    assert TxtName(id)[|TxtName(id)| - 4..] == ".txt";
  }

  /**
    `processJob` reports success exactly when it wrote the non-empty answer for
    the claimed text to `output/<id>.txt`; afterwards neither the claimed text
    nor its sidecar is left in `processing/`.
   */
  lemma ProcessJobResult(d: Disk, llm: Llm, id: string, o: JobOutcome)
    ensures var (r, ok) := ProcessJob(d, llm, id, o);
      && (ok <==> JobSucceeds(d, llm, id, o))
      && (ok ==> r.Content(OutputText(id)) == Some(Inference(llm, d.files[ProcessingText(id)].text)))
      && ProcessingText(id) !in r.files
      && ProcessingMeta(id) !in r.files
  {
    ProcessingPathsDistinct(id);
  }

  /**
    On failure nothing is written to `output/`, and the claimed text is in
    `failed/<id>.txt` when the move went through, or deleted otherwise.
   */
  lemma ProcessJobFailure(d: Disk, llm: Llm, id: string, o: JobOutcome)
    requires !ProcessJob(d, llm, id, o).1
    ensures var r := ProcessJob(d, llm, id, o).0;
      && (OutputText(id) in r.files <==> OutputText(id) in d.files)
      && (OutputText(id) in d.files ==> r.files[OutputText(id)] == d.files[OutputText(id)])
      && (o.movedToFailed && d.CanRename(ProcessingText(id), FailedText(id)) ==>
            r.files[FailedText(id)] == d.files[ProcessingText(id)])
  {
    ProcessingPathsDistinct(id);
  }

  /** `processJob` touches only the four paths of its own job. */
  lemma ProcessJobFrame(d: Disk, llm: Llm, id: string, o: JobOutcome, p: Path)
    requires p != ProcessingText(id) && p != ProcessingMeta(id) && p != OutputText(id) && p != FailedText(id)
    ensures var r := ProcessJob(d, llm, id, o).0;
      (p in r.files <==> p in d.files) && (p in d.files ==> r.files[p] == d.files[p])
    ensures ProcessJob(d, llm, id, o).0.dirs == d.dirs
  {
  }

  /** The input directories are never touched by `processJob`. */
  lemma ProcessJobKeepsInputs(d: Disk, llm: Llm, id: string, o: JobOutcome)
    ensures ProcessJob(d, llm, id, o).0.Within({Writing, Ready}) == d.Within({Writing, Ready})
  {
    var r := ProcessJob(d, llm, id, o).0;
    forall p: Path | p.dir in {Writing, Ready}
      ensures SameAt(r, d, p)
    {
      ProcessJobFrame(d, llm, id, o, p);
    }
    WithinEqual(r, d, {Writing, Ready});
  }

  /** What the claimed jobs' files become when `processJob` runs on each id in turn. */
  function ProcessJobs(d: Disk, llm: Llm, ids: seq<string>, os: seq<JobOutcome>): Disk
    requires |os| == |ids|
    decreases |ids|
  {
    if ids == [] then d else ProcessJobs(ProcessJob(d, llm, ids[0], os[0]).0, llm, ids[1..], os[1..])
  }

  lemma {:induction false} ProcessJobsSnoc(d: Disk, llm: Llm, ids: seq<string>, os: seq<JobOutcome>, id: string, o: JobOutcome)
    requires |os| == |ids|
    ensures ProcessJobs(d, llm, ids + [id], os + [o]) == ProcessJob(ProcessJobs(d, llm, ids, os), llm, id, o).0
    decreases |ids|
  {
    if ids == [] {
      assert [] + [id] == [id] && [] + [o] == [o];
    } else {
      assert (ids + [id])[1..] == ids[1..] + [id];
      assert (os + [o])[1..] == os[1..] + [o];
      ProcessJobsSnoc(ProcessJob(d, llm, ids[0], os[0]).0, llm, ids[1..], os[1..], id, o);
    }
  }

  /** Running jobs never touches the input directories. */
  lemma {:induction false} ProcessJobsKeepInputs(d: Disk, llm: Llm, ids: seq<string>, os: seq<JobOutcome>)
    requires |os| == |ids|
    ensures ProcessJobs(d, llm, ids, os).Within({Writing, Ready}) == d.Within({Writing, Ready})
    decreases |ids|
  {
    if ids != [] {
      ProcessJobKeepsInputs(d, llm, ids[0], os[0]);
      ProcessJobsKeepInputs(ProcessJob(d, llm, ids[0], os[0]).0, llm, ids[1..], os[1..]);
    }
  }

  // ------------------------------------------------------------ single shot

  datatype ShotOutcome = ShotOutcome(claim: ClaimOutcome, job: JobOutcome)

  /** One entry of `process()`: claim it as the scan does, and run the job at once if the claim went through. */
  function ProcessEntry(d: Disk, llm: Llm, name: string, o: ShotOutcome): (Disk, bool) {
    var (d1, claimed) := ClaimEntry(d, name, o.claim);
    if claimed.None? then (d1, false) else ProcessJob(d1, llm, claimed.value, o.job)
  }

  function ProcessEntries(d: Disk, llm: Llm, listing: seq<string>, os: seq<ShotOutcome>): (Disk, nat)
    requires |os| == |listing|
    decreases |listing|
  {
    if listing == [] then (d, 0)
    else
      var k := |listing| - 1;
      var (d1, n) := ProcessEntries(d, llm, listing[..k], os[..k]);
      var (d2, ok) := ProcessEntry(d1, llm, listing[k], os[k]);
      (d2, n + if ok then 1 else 0)
  }

  /** What one more entry at the end of the listing adds. */
  lemma ProcessEntriesStep(d: Disk, llm: Llm, listing: seq<string>, os: seq<ShotOutcome>, name: string, o: ShotOutcome)
    requires |os| == |listing|
    ensures var (d1, n) := ProcessEntries(d, llm, listing, os);
      && ProcessEntries(d, llm, listing + [name], os + [o]).0 == ProcessEntry(d1, llm, name, o).0
      && ProcessEntries(d, llm, listing + [name], os + [o]).1 == n + if ProcessEntry(d1, llm, name, o).1 then 1 else 0
  {
    assert (listing + [name])[..|listing|] == listing;
    assert (os + [o])[..|os|] == os;
  }

  /** `process()`: nothing without runners or without a listable ready directory; otherwise every completed job counts once. */
  function ProcessOnce(d: Disk, llm: Llm, hasRunners: bool, listing: seq<string>, os: seq<ShotOutcome>): (Disk, nat)
    requires |os| == |listing|
  {
    if !hasRunners || Ready !in d.dirs then (d, 0) else ProcessEntries(d, llm, listing, os)
  }

  /** The regular `.txt` files of the ready directory. */
  function ReadyJobs(d: Disk): set<Path> {
    set p | p in d.files && p.dir == Ready && IsTxt(p.name) && d.files[p].File?
  }

  lemma SubsetCardinality<T>(a: set<T>, b: set<T>)
    requires a <= b
    ensures |a| <= |b|
  {
    assert b == a + (b - a);
  }

  /** A processed entry used up one ready job; any entry leaves the others where they were. */
  lemma ProcessEntryReadyJobs(d: Disk, llm: Llm, name: string, o: ShotOutcome)
    ensures var (r, ok) := ProcessEntry(d, llm, name, o);
      && ReadyJobs(r) <= ReadyJobs(d)
      && (ok ==> Path(Ready, name) in ReadyJobs(d) && Path(Ready, name) !in ReadyJobs(r))
  {
    var (d1, claimed) := ClaimEntry(d, name, o.claim);
    var (r, ok) := ProcessEntry(d, llm, name, o);
    if IsReadyJob(d, name) {
      var id := Stem(name);
      MetaNameNotTxt(id);
      ClaimEntryMoves(d, name, o.claim);
      forall p | p in ReadyJobs(d1)
        ensures p in ReadyJobs(d) && (d1 != d ==> p != Path(Ready, name))
      {
        assert p.name != MetaName(id);
      }
      if claimed.Some? {
        ProcessJobKeepsInputs(d1, llm, claimed.value, o.job);
        assert r.Within({Writing, Ready}) == d1.Within({Writing, Ready});
        forall p | p in ReadyJobs(r)
          ensures p in ReadyJobs(d1)
        {
          assert p in r.Within({Writing, Ready});
        }
        ClaimEntryReports(d, name, o.claim);
        assert d1 != d;
      }
    }
  }

  /**
    Every completed job used up a ready job: the count plus the ready jobs
    left is at most the number of regular `.txt` files the ready directory
    held at the start.
   */
  lemma {:induction false} ProcessEntriesBound(d: Disk, llm: Llm, listing: seq<string>, os: seq<ShotOutcome>)
    requires |os| == |listing|
    ensures ProcessEntries(d, llm, listing, os).1 + |ReadyJobs(ProcessEntries(d, llm, listing, os).0)| <= |ReadyJobs(d)|
    decreases |listing|
  {
    if listing != [] {
      var k := |listing| - 1;
      ProcessEntriesBound(d, llm, listing[..k], os[..k]);
      var (d1, n) := ProcessEntries(d, llm, listing[..k], os[..k]);
      ProcessEntryReadyJobs(d1, llm, listing[k], os[k]);
      var (r, ok) := ProcessEntry(d1, llm, listing[k], os[k]);
      if ok {
        SubsetCardinality(ReadyJobs(r), ReadyJobs(d1) - {Path(Ready, listing[k])});
      } else {
        SubsetCardinality(ReadyJobs(r), ReadyJobs(d1));
      }
    }
  }

  lemma ProcessOnceBound(d: Disk, llm: Llm, hasRunners: bool, listing: seq<string>, os: seq<ShotOutcome>)
    requires |os| == |listing|
    ensures ProcessOnce(d, llm, hasRunners, listing, os).1 <= |ReadyJobs(d)|
    ensures !hasRunners ==> ProcessOnce(d, llm, hasRunners, listing, os) == (d, 0)
  {
    if hasRunners && Ready in d.dirs {
      ProcessEntriesBound(d, llm, listing, os);
    }
  }

  // ------------------------------------------------------------ the worker rule

  /** Where a worker thread is in `workerFunction`: at the loop test, blocked in the wait, or returned. */
  datatype WorkerState = Looping | Waiting | Exited

  /** What the condition-variable wait lets a worker do, given the flag and the queue. */
  datatype Wake = Blocked | Exit | Take(id: string)

  function Wakeup(running: bool, queue: seq<string>): Wake {
    if queue != [] then Take(queue[0]) else if running then Blocked else Exit
  }

  /** A worker leaves the wait only when stopped or given work, and exits only when stopped with nothing queued. */
  lemma WakeupRule(running: bool, queue: seq<string>)
    ensures Wakeup(running, queue) == Blocked <==> running && queue == []
    ensures Wakeup(running, queue) == Exit <==> !running && queue == []
    ensures Wakeup(running, queue).Take? <==> queue != []
  {
  }

  /** The ids handed out by `n` wake-ups in a row, each popping what it takes. */
  function Served(running: bool, queue: seq<string>, n: nat): seq<string>
    decreases n
  {
    if n == 0 then []
    else match Wakeup(running, queue)
      case Take(id) => [id] + Served(running, queue[1..], n - 1)
      case _ => []
  }

  /** How far a worker is from having returned, for the join in `stop()`. */
  function Rank(w: WorkerState): nat {
    match w
    case Waiting => 2
    case Looping => 1
    case Exited => 0
  }

  /** First in, first out: `n` wake-ups receive the first `n` queued ids, none twice and none skipped. */
  lemma {:induction false} ServedInOrder(running: bool, queue: seq<string>, n: nat)
    ensures Served(running, queue, n) == queue[..if n <= |queue| then n else |queue|]
    decreases n
  {
    if n > 0 && queue != [] {
      ServedInOrder(running, queue[1..], n - 1);
      var k := if n <= |queue| then n else |queue|;
      assert queue[..k] == [queue[0]] + queue[1..][..k - 1];
    }
  }
}
