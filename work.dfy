/**
  Job submission (src/work.cpp). A job is written under `input/writing/`,
  with a sidecar holding the submitter's email when one is given, and then
  published by renaming both into `input/ready/`. A failed publication
  removes what is left in `writing/`.
 */
module Submitter {
  import opened Options
  import opened Text
  import opened Fs
  import opened JobIds

  /** The sidecar `submit` writes: one `email=` line ended by `std::endl`. */
  function Sidecar(email: string): string {
    EMAIL_KEY + email + "\n"
  }

  /** The environment's part in one submission: the two writes and the two renames. */
  datatype SubmitOutcome = SubmitOutcome(textWritten: bool, metaWritten: bool, textPublished: bool, metaPublished: bool)

  function WritingText(id: string): Path { Path(Writing, TxtName(id)) }
  function WritingMeta(id: string): Path { Path(Writing, MetaName(id)) }
  function ReadyText(id: string): Path { Path(Ready, TxtName(id)) }
  function ReadyMeta(id: string): Path { Path(Ready, MetaName(id)) }

  /** The clean-up after a failed publication: the staged text, and the staged sidecar when an email was given. */
  function Discarded(d: Disk, id: string, email: string): Disk {
    var d1 := d.Removed(WritingText(id));
    if email != "" then d1.Removed(WritingMeta(id)) else d1
  }

  /**
    `submit(content, email)` for the identifier `id` the generator hands out:
    the new disk and the returned id, "" on failure. A sidecar that cannot be
    opened is skipped silently; its rename then fails and the submission
    reports failure after the text was already published.
   */
  function Submission(d: Disk, content: string, email: string, id: string, o: SubmitOutcome): (Disk, string) {
    if content == "" then (d, "")
    else
      var (d1, created) := TryWrite(d, WritingText(id), content, o.textWritten);
      if !created then (d, "")
      else
        var d2 := if email != "" then TryWrite(d1, WritingMeta(id), Sidecar(email), o.metaWritten).0 else d1;
        var (d3, moved) := TryRename(d2, WritingText(id), ReadyText(id), o.textPublished);
        if !moved then (Discarded(d2, id, email), "")
        else if email == "" then (d3, id)
        else
          var (d4, metaMoved) := TryRename(d3, WritingMeta(id), ReadyMeta(id), o.metaPublished);
          if metaMoved then (d4, id) else (Discarded(d3, id, email), "")
  }

  /** Neither staged file of job `id` exists yet, as for a newly generated id. */
  predicate Fresh(d: Disk, id: string) {
    WritingText(id) !in d.files && WritingMeta(id) !in d.files
  }

  lemma JobPathsDistinct(id: string)
    ensures WritingText(id) != WritingMeta(id) && ReadyText(id) != ReadyMeta(id)
  {
    MetaNameNotTxt(id);
    assert TxtName(id)[|TxtName(id)| - 4..] == ".txt";
  }

  lemma SubmissionEmpty(d: Disk, email: string, id: string, o: SubmitOutcome)
    ensures Submission(d, "", email, id, o) == (d, "")
  {
  }

  /** When the staged text cannot be created nothing changes and the submission fails. */
  lemma SubmissionWriteFails(d: Disk, content: string, email: string, id: string, o: SubmitOutcome)
    requires !(o.textWritten && d.CanWrite(WritingText(id)))
    ensures Submission(d, content, email, id, o) == (d, "")
  {
  }

  /**
    A successful submission returns the generated id, has published the content
    as `ready/<id>.txt` and left nothing staged; with an email the sidecar is
    published next to it, without one no sidecar is created.
   */
  lemma SubmissionPublishes(d: Disk, content: string, email: string, id: string, o: SubmitOutcome)
    requires Fresh(d, id)
    requires Submission(d, content, email, id, o).1 != ""
    ensures var r := Submission(d, content, email, id, o).0;
      && Submission(d, content, email, id, o).1 == id
      && content != ""
      && r.Content(ReadyText(id)) == Some(content)
      && WritingText(id) !in r.files && WritingMeta(id) !in r.files
      && (email != "" ==> r.Content(ReadyMeta(id)) == Some(Sidecar(email)))
      && (email == "" ==> SameAt(r, d, ReadyMeta(id)))
  {
    JobPathsDistinct(id);
  }

  /**
    A failed submission leaves nothing staged; `ready/<id>.txt` is either as
    before or, when only the sidecar's rename failed, holds the content.
   */
  lemma SubmissionRollsBack(d: Disk, content: string, email: string, id: string, o: SubmitOutcome)
    requires Fresh(d, id)
    requires Submission(d, content, email, id, o).1 == ""
    ensures var r := Submission(d, content, email, id, o).0;
      && WritingText(id) !in r.files && WritingMeta(id) !in r.files
      && (SameAt(r, d, ReadyText(id)) || r.Content(ReadyText(id)) == Some(content))
  {
    JobPathsDistinct(id);
  }

  /**
    The code's half-published job: when the sidecar cannot be created, the
    text is published, the sidecar rename fails, and `submit` reports failure
    while `ready/<id>.txt` stays for the scheduler to pick up.
   */
  lemma SubmissionPublishedDespiteFailure(d: Disk, content: string, email: string, id: string, b: bool)
    requires Fresh(d, id) && content != "" && email != ""
    requires Writing in d.dirs && Ready in d.dirs
    ensures var (r, result) := Submission(d, content, email, id, SubmitOutcome(true, false, true, b));
      result == "" && r.Content(ReadyText(id)) == Some(content) && SameAt(r, d, ReadyMeta(id))
  {
    JobPathsDistinct(id);
  }

  /** A submission touches only the four paths of its own job. */
  lemma SubmissionFrame(d: Disk, content: string, email: string, id: string, o: SubmitOutcome, p: Path)
    requires p != WritingText(id) && p != WritingMeta(id) && p != ReadyText(id) && p != ReadyMeta(id)
    ensures SameAt(Submission(d, content, email, id, o).0, d, p)
    ensures Submission(d, content, email, id, o).0.dirs == d.dirs
  {
  }

  /**
    The submitter of `src/work.cpp`, over the shared file system and the
    process-wide identifier generator.
   */
  class Work {
    const fs: FileSystem
    const ids: IdGenerator

    /** `setupDirectories()`: create `writing/`, then `ready/`; a failure is logged and ignored. */
    constructor (fs: FileSystem, ids: IdGenerator)
      modifies fs
      ensures this.fs == fs && this.ids == ids
      ensures fs.disk.files == old(fs.disk.files)
      ensures old(fs.disk.dirs) <= fs.disk.dirs <= old(fs.disk.dirs) + {Writing, Ready}
      ensures Ready in fs.disk.dirs - old(fs.disk.dirs) ==> Writing in fs.disk.dirs
      ensures {Writing, Ready} <= old(fs.disk.dirs) ==> fs.disk == old(fs.disk)
    {
      this.fs := fs;
      this.ids := ids;
      new;
      var ok := fs.CreateDirectory(Writing);
      if ok {
        ok := fs.CreateDirectory(Ready);
      }
    }

    /** `submit(content)`: a submission without an email. */
    method Submit(content: string, now: Micros) returns (id: string, ghost o: SubmitOutcome)
      requires ids.Valid()
      modifies fs, ids
      ensures ids.Valid()
      ensures content == "" ==> ids.counter == old(ids.counter) && ids.issued == old(ids.issued)
      ensures content != "" ==> ids.issued == old(ids.issued) + [JobId(ids.pid, now, old(ids.counter))]
      ensures (fs.disk, id) == Submission(old(fs.disk), content, "", JobId(ids.pid, now, old(ids.counter)), o)
    {
      id, o := SubmitWithEmail(content, "", now);
    }

    /**
      `submit(content, email)`. An identifier is drawn only for non-empty
      content, and it is drawn whether or not the submission then succeeds.
     */
    method SubmitWithEmail(content: string, email: string, now: Micros) returns (id: string, ghost o: SubmitOutcome)
      requires ids.Valid()
      modifies fs, ids
      ensures ids.Valid()
      ensures content == "" ==> ids.counter == old(ids.counter) && ids.issued == old(ids.issued)
      ensures content != "" ==> ids.issued == old(ids.issued) + [JobId(ids.pid, now, old(ids.counter))]
      ensures (fs.disk, id) == Submission(old(fs.disk), content, email, JobId(ids.pid, now, old(ids.counter)), o)
    {
      o := SubmitOutcome(false, false, false, false);
      if content == "" {
        return "", o;
      }
      var jobId := ids.Next(now);
      var created := fs.Write(WritingText(jobId), content);
      if !created {
        return "", o;
      }
      ghost var metaWritten := false;
      if email != "" {
        var written := fs.Write(WritingMeta(jobId), Sidecar(email));
        metaWritten := written;
      }
      var moved := fs.Rename(WritingText(jobId), ReadyText(jobId));
      o := SubmitOutcome(true, metaWritten, moved, false);
      if !moved {
        Discard(jobId, email);
        return "", o;
      }
      if email != "" {
        var metaMoved := fs.Rename(WritingMeta(jobId), ReadyMeta(jobId));
        o := SubmitOutcome(true, metaWritten, true, metaMoved);
        if !metaMoved {
          Discard(jobId, email);
          return "", o;
        }
      }
      id := jobId;
    }

    /** The clean-up in `submit`'s handler. */
    method Discard(id: string, email: string)
      modifies fs
      ensures fs.disk == Discarded(old(fs.disk), id, email)
    {
      fs.Remove(WritingText(id));
      if email != "" {
        fs.Remove(WritingMeta(id));
      }
    }
  }
}
