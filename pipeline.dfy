/**
  How the parts fit together over the shared workspace: a job submitted by
  `Work` (or through the HTTP receiver) is found by the scheduler's claim, run
  by `processJob`, and read back by `Flow::retrieve`; the sidecar `submit`
  writes is the one `readEmailFromMeta` reads.
 */
module Pipeline {
  import opened Options
  import opened Text
  import opened Fs
  import opened Runner
  import opened Submitter
  import opened MonitorSpec
  import opened Flow
  import opened Http
  import opened HttpMessages

  // ------------------------------------------------------------------ sidecars

  /** The first line of a sidecar ends where the email's first newline is, or at the final newline. */
  lemma SidecarFirstLine(email: string)
    ensures var s, k := Sidecar(email), |EMAIL_KEY| + |Span(email, LineChars)|;
      && k < |s|
      && (forall j :: 0 <= j < k ==> s[j] != '\n')
      && s[k] == '\n'
      && s[0..k] == EMAIL_KEY + Span(email, LineChars)
  {
    var s, sp := Sidecar(email), Span(email, LineChars);
    var k := |EMAIL_KEY| + |sp|;
    assert s == EMAIL_KEY + (email + "\n");
    forall j | 0 <= j < k
      ensures s[j] != '\n'
    {
      if j >= |EMAIL_KEY| {
        assert s[j] == sp[j - |EMAIL_KEY|];
        assert InClass(sp[j - |EMAIL_KEY|], LineChars);
      }
    }
    if |sp| < |email| {
      assert s[k] == email[|sp|];
    }
  }

  /** What the scheduler reads back from the sidecar of `submit(content, email)`: the email up to its first newline. */
  lemma SidecarEmailRead(email: string)
    ensures EmailIn(Sidecar(email)) == Span(email, LineChars)
  {
    var s, sp := Sidecar(email), Span(email, LineChars);
    var k := |EMAIL_KEY| + |sp|;
    SidecarFirstLine(email);
    LinesAt(s, 0, k);
    assert s[0..] == s;
    var line := EMAIL_KEY + sp;
    assert IsEmailLine(line) by {
      assert line[..|EMAIL_KEY|] == EMAIL_KEY;
    }
    assert line[|EMAIL_KEY|..] == sp;
  }

  /** An email without a newline, as the receiver's forms and the command line supply, is read back unchanged. */
  lemma SidecarRoundTrip(email: string)
    requires forall i :: 0 <= i < |email| ==> email[i] != '\n'
    ensures EmailIn(Sidecar(email)) == email
  {
    SidecarEmailRead(email);
    var sp := Span(email, LineChars);
    assert sp == email[..|sp|];
    if |sp| < |email| {
      assert false;
    }
    assert email[..|email|] == email;
  }

  // ----------------------------------------------------------------- the claim

  /**
    A claim that reports the job has moved its text into `processing/` and, when
    a sidecar was published, the sidecar too; the directories and the paths
    outside `ready/` and `processing/` are as before.
   */
  lemma ClaimedJob(d: Disk, name: string, o: ClaimOutcome, p: Path)
    requires IsReadyJob(d, name) && ClaimEntry(d, name, o).1.Some?
    requires p.dir != Ready && p.dir != Processing
    ensures var r := ClaimEntry(d, name, o).0;
      && r.Content(Path(Processing, name)) == d.Content(Path(Ready, name))
      && r.dirs == d.dirs
      && SameAt(r, d, p)
  {
    var id := Stem(name);
    MetaNameNotTxt(id);
    assert Path(Ready, MetaName(id)) != Path(Ready, name);
    assert Path(Processing, MetaName(id)) != Path(Processing, name);
  }

  /** The sidecar a claim moves along still names the submitter's email. */
  lemma ClaimCarriesEmail(d: Disk, name: string, o: ClaimOutcome)
    requires IsReadyJob(d, name) && ClaimEntry(d, name, o).1.Some?
    requires Path(Ready, MetaName(Stem(name))) in d.files
    ensures SidecarEmail(ClaimEntry(d, name, o).0, Path(Processing, MetaName(Stem(name))))
      == SidecarEmail(d, Path(Ready, MetaName(Stem(name))))
  {
    var id := Stem(name);
    MetaNameNotTxt(id);
    assert Path(Ready, MetaName(id)) != Path(Ready, name);
    assert Path(Processing, MetaName(id)) != Path(Processing, name);
  }

  // ------------------------------------------------------------- the answer

  /** After a completed `processJob`, `retrieve(id)` returns the model's answer for the claimed text. */
  lemma ProcessedJobRetrieved(d: Disk, llm: Llm, id: string, o: JobOutcome)
    requires ProcessJob(d, llm, id, o).1
    ensures d.IsRegular(ProcessingText(id))
    ensures Retrieved(ProcessJob(d, llm, id, o).0, id)
      == JobInference(id, Inference(llm, d.files[ProcessingText(id)].text))
  {
    ProcessJobResult(d, llm, id, o);
  }

  /** After a failed `processJob` for a job with no earlier output, `retrieve(id)` returns an empty inference. */
  lemma FailedJobRetrievedEmpty(d: Disk, llm: Llm, id: string, o: JobOutcome)
    requires !ProcessJob(d, llm, id, o).1
    requires !d.IsRegular(OutputText(id))
    ensures Retrieved(ProcessJob(d, llm, id, o).0, id) == JobInference(id, "")
  {
    ProcessJobFailure(d, llm, id, o);
  }

  // ---------------------------------------------------------------- end to end

  /** A successful submission leaves a ready job whose text is the content, with the rest of the disk's structure kept. */
  lemma SubmittedIsReady(d: Disk, content: string, email: string, id: string, o: SubmitOutcome)
    requires Fresh(d, id) && id != []
    requires Submission(d, content, email, id, o).1 != ""
    ensures var r := Submission(d, content, email, id, o).0;
      && IsReadyJob(r, TxtName(id)) && Stem(TxtName(id)) == id
      && r.Content(Path(Ready, TxtName(id))) == Some(content)
      && r.dirs == d.dirs
      && SameAt(r, d, OutputText(id))
  {
    SubmissionPublishes(d, content, email, id, o);
    SubmissionFrame(d, content, email, id, o, OutputText(id));
    TxtNameStem(id);
  }

  /**
    The whole path of one job: submitted, claimed with every rename going
    through, and run with a writable output, its answer is what `retrieve`
    returns for its id.
   */
  lemma SubmittedJobIsAnswered(d: Disk, llm: Llm, content: string, email: string, id: string,
                               so: SubmitOutcome, co: ClaimOutcome, jo: JobOutcome)
    requires Fresh(d, id) && id != []
    requires Submission(d, content, email, id, so).1 != ""
    requires Processing in d.dirs && Output in d.dirs
    requires !(OutputText(id) in d.files && d.files[OutputText(id)].Special?)
    requires co.textMoved && co.metaMoved && jo.outputWritten
    requires Inference(llm, content) != ""
    ensures var r1 := Submission(d, content, email, id, so).0;
      && ClaimEntry(r1, TxtName(id), co).1 == Some(id)
      && ProcessJob(ClaimEntry(r1, TxtName(id), co).0, llm, id, jo).1
      && Retrieved(ProcessJob(ClaimEntry(r1, TxtName(id), co).0, llm, id, jo).0, id).inference
           == Inference(llm, content)
  {
    var r1 := Submission(d, content, email, id, so).0;
    SubmittedIsReady(d, content, email, id, so);
    ClaimEntryReports(r1, TxtName(id), co);
    var r2 := ClaimEntry(r1, TxtName(id), co).0;
    ClaimedJob(r1, TxtName(id), co, OutputText(id));
    assert r2.Content(ProcessingText(id)) == Some(content);
    assert JobSucceeds(r2, llm, id, jo);
    ProcessJobResult(r2, llm, id, jo);
    ProcessedJobRetrieved(r2, llm, id, jo);
  }

  /** The email given to `submit` is the one the worker reads from the claimed job's sidecar. */
  lemma SubmittedEmailReachesWorker(d: Disk, content: string, email: string, id: string,
                                    so: SubmitOutcome, co: ClaimOutcome)
    requires Fresh(d, id) && id != [] && email != ""
    requires forall i :: 0 <= i < |email| ==> email[i] != '\n'
    requires Submission(d, content, email, id, so).1 != ""
    requires ClaimEntry(Submission(d, content, email, id, so).0, TxtName(id), co).1.Some?
    ensures SidecarEmail(ClaimEntry(Submission(d, content, email, id, so).0, TxtName(id), co).0, ProcessingMeta(id))
      == email
  {
    var r1 := Submission(d, content, email, id, so).0;
    SubmissionPublishes(d, content, email, id, so);
    TxtNameStem(id);
    ClaimCarriesEmail(r1, TxtName(id), co);
    SidecarRoundTrip(email);
  }

  // ------------------------------------------------------------------- HTTP

  /**
    A post the receiver reports as queued has been published as a ready job
    under the generated id; one reported as failed has left nothing staged.
   */
  lemma QueuedIsPublished(d: Disk, received: Option<string>, jobId: string, o: SubmitOutcome)
    requires Fresh(d, jobId) && Submitted(received).Some?
    ensures var content := Submitted(received).value;
      var (r, id) := Submission(d, content, "", jobId, o);
      Outcome(received, id) == Queued ==> id == jobId && r.Content(ReadyText(jobId)) == Some(content)
    ensures var (r, id) := Submission(d, Submitted(received).value, "", jobId, o);
      Outcome(received, id) == WriteFailed ==> WritingText(jobId) !in r.files
  {
    var content := Submitted(received).value;
    var (r, id) := Submission(d, content, "", jobId, o);
    OutcomeReplies(received, id);
    if id != "" {
      SubmissionPublishes(d, content, "", jobId, o);
    } else {
      SubmissionRollsBack(d, content, "", jobId, o);
    }
  }
}
